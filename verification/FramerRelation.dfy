/** The simulation relation between the state of a framer and the framing of the
    stream, and the steps that keep it. */
module FramerRelation {
  import opened TransportStream
  import opened Framing
  import opened FramingTheorems
  import opened PacketHandling

  /** What a framer in `mode`, whose candidate or packet boundary is `base`, is still
      going to find in `t`. */
  function Rest(mode: Mode, t: seq<Byte>, base: nat): Frames
    requires base <= |t|
  {
    match mode
    case InitialSync => Initial(t, base)
    case SeekingSync => Seeking(t, base)
    case Synced => Locked(t, base)
  }

  /** Whatever bytes follow `s`, the packets already found and those still to be found
      make up the framing. */
  ghost predicate Tracks(mode: Mode, s: seq<Byte>, base: nat, starts: seq<nat>) {
    && EndOf(0, starts) <= base <= |s|
    && forall t | s <= t :: FrameStream(t) == Rest(mode, t, base).After(starts)
  }

  lemma TracksAtStart()
    ensures Tracks(InitialSync, [], 0, [])
  {
    forall t | [] <= t ensures FrameStream(t) == Rest(InitialSync, t, 0).After([]) {
      assert [] + Initial(t, 0).starts == Initial(t, 0).starts;
    }
  }

  lemma TracksMoreInput(mode: Mode, s: seq<Byte>, base: nat, starts: seq<nat>, data: seq<Byte>)
    requires Tracks(mode, s, base, starts)
    ensures Tracks(mode, s + data, base, starts)
  {
    forall t | s + data <= t ensures FrameStream(t) == Rest(mode, t, base).After(starts) {
      assert s <= s + data <= t;
    }
  }

  /** A searching framer may skip offsets that cannot start a run. */
  lemma TracksSkip(mode: Mode, s: seq<Byte>, base: nat, next: nat, starts: seq<nat>)
    requires Tracks(mode, s, base, starts) && mode != Synced
    requires base <= next <= |s| && forall i: nat | base <= i < next :: Refuted(s, i)
    ensures Tracks(mode, s, next, starts)
  {
    forall t | s <= t ensures FrameStream(t) == Rest(mode, t, next).After(starts) {
      forall i: nat | base <= i < next ensures !Run(t, i) {
        RunGrows(s, t, i);
      }
      NextRunSkips(t, base, next);
    }
  }

  /** A confirmed probe locks the framer at the candidate. */
  lemma TracksLock(mode: Mode, s: seq<Byte>, base: nat, starts: seq<nat>)
    requires Tracks(mode, s, base, starts) && Run(s, base)
    requires mode == InitialSync ==> base < PKT_SIZE
    ensures Tracks(Synced, s, base, starts)
  {
    forall t | s <= t ensures FrameStream(t) == Locked(t, base).After(starts) {
      RunGrows(s, t, base);
      assert NextRun(t, base) == Some(base);
    }
  }

  lemma TracksPacket(s: seq<Byte>, base: nat, starts: seq<nat>)
    requires Tracks(Synced, s, base, starts)
    requires base + PKT_SIZE <= |s| && s[base] == SYNC_BYTE
    ensures Tracks(Synced, s, base + PKT_SIZE, starts + [base])
  {
    forall t | s <= t ensures FrameStream(t) == Locked(t, base + PKT_SIZE).After(starts + [base]) {
      var rest := Locked(t, base + PKT_SIZE).starts;
      assert starts + ([base] + rest) == starts + [base] + rest;
    }
  }

  lemma TracksLoss(s: seq<Byte>, base: nat, starts: seq<nat>)
    requires Tracks(Synced, s, base, starts)
    requires base < |s| && s[base] != SYNC_BYTE
    ensures Tracks(SeekingSync, s, base, starts)
  {
  }

  /** At the end of the input fed so far nothing is left to be found, so what was
      found is exactly the framing of that input. */
  lemma TracksAtEnd(mode: Mode, s: seq<Byte>, base: nat, starts: seq<nat>)
    requires Tracks(mode, s, base, starts)
    requires if mode == Synced then |s| - base < PKT_SIZE && (base < |s| ==> s[base] == SYNC_BYTE)
             else |s| - base < PROBE_SIZE
    ensures FrameStream(s) == Frames(starts, mode) && EndOf(0, starts) <= base
  {
    assert FrameStream(s) == Rest(mode, s, base).After(starts);
    assert starts + [] == starts;
  }

  /** A framer that is synced at the end of its input holds everything beyond the last
      packet: nothing in between is lost. */
  lemma NothingLostWhileSynced(s: seq<Byte>, base: nat, starts: seq<nat>)
    requires Tracks(Synced, s, base, starts)
    requires |s| - base < PKT_SIZE && (base < |s| ==> s[base] == SYNC_BYTE)
    ensures EndOf(0, starts) == base
  {
    TracksAtEnd(Synced, s, base, starts);
    LockedIffEarlyRun(s);
    var end := EndOf(0, starts);
    var q := FramedFromFirstRun(s);
    LockedEnds(s, q);
    if end < |s| {
      var t := s + seq(PKT_SIZE, _ => SYNC_BYTE);
      FramingResumes(s, t);
      assert FrameStream(t) == Locked(t, base).After(starts);
      SameRest(starts, Locked(t, end), Locked(t, base));
      SameBoundary(t, end, base);
    }
  }

  /** A framer is seeking at the end of its input only if the boundary behind the last
      packet lost its sync byte and no run has followed. */
  lemma SeekingFromLostBoundary(s: seq<Byte>)
    requires FrameStream(s).mode == SeekingSync
    ensures var end := EndOf(0, FrameStream(s).starts);
            end < |s| && s[end] != SYNC_BYTE && NextRun(s, end).None?
  {
    LockedIffEarlyRun(s);
    var q := FramedFromFirstRun(s);
    LockedEnds(s, q);
  }

  lemma SameBoundary(t: seq<Byte>, end: nat, base: nat)
    requires end <= base <= |t| && end + PKT_SIZE <= |t| && t[end] == SYNC_BYTE
    requires Locked(t, end).starts == Locked(t, base).starts
    ensures end == base
  {
    assert Locked(t, end).starts[0] == end;
    var o := FirstPacket(t, t, base);
    assert Locked(t, base).starts[0] == o;
  }

  lemma SameRest(starts: seq<nat>, f: Frames, g: Frames)
    requires f.After(starts) == g.After(starts)
    ensures f.starts == g.starts
  {
    assert (starts + f.starts)[|starts|..] == f.starts;
    assert (starts + g.starts)[|starts|..] == g.starts;
  }

  /** No offset below `PKT_SIZE` can start a run any more. */
  ghost predicate Hopeless(s: seq<Byte>) {
    forall q: nat | q < PKT_SIZE :: Refuted(s, q)
  }

  lemma NeverLocks(s: seq<Byte>, base: nat)
    requires Tracks(InitialSync, s, base, []) && base >= PKT_SIZE
    ensures Hopeless(s)
  {
    forall t | s <= t ensures FrameStream(t).mode == InitialSync {}
    HopelessIsFinal(s);
  }

  /** The initial search goes past an offset only when there is a byte against it. */
  lemma SkippedWereRefuted(s: seq<Byte>, base: nat)
    requires Tracks(InitialSync, s, base, [])
    ensures forall q: nat | q < base && q < PKT_SIZE :: Refuted(s, q)
  {
    forall q: nat | q < base && q < PKT_SIZE ensures Refuted(s, q) {
      if !Refuted(s, q) {
        var t := s + seq(PROBE_SIZE, _ => SYNC_BYTE);
        assert Run(t, q);
        hide Refuted, Run;
        FirstStart(t, 0, q);
        assert FrameStream(t) == Rest(InitialSync, t, base).After([]);
        AfterTwice(Initial(t, base), [], []);
      }
    }
  }

  /** A search that starts by `q` finds a packet there at the latest. */
  lemma FirstStart(t: seq<Byte>, base: nat, q: nat)
    requires base <= q < PKT_SIZE && Run(t, q)
    ensures Initial(t, base).starts != [] && Initial(t, base).starts[0] <= q
    ensures forall p: nat :: Initial(t, p).starts != [] ==> Initial(t, p).starts[0] >= p
  {
  }

  /** Initial sync is beyond hope exactly when every offset that could still lock has
      a byte against it: then, and only then, no continuation of the stream locks. */
  lemma HopelessIsFinal(s: seq<Byte>)
    ensures Hopeless(s) <==> forall t | s <= t :: FrameStream(t).mode == InitialSync
    ensures Hopeless(s) ==> forall t | s <= t :: FrameStream(t) == Frames([], InitialSync)
  {
    if Hopeless(s) {
      forall t | s <= t ensures FrameStream(t) == Frames([], InitialSync) {
        forall q: nat | q < PKT_SIZE ensures !Run(t, q) {
          RunGrows(s, t, q);
        }
      }
    } else {
      var q: nat :| q < PKT_SIZE && !Refuted(s, q);
      var t := s + seq(PKT_SIZE + PROBE_SIZE, _ => SYNC_BYTE);
      assert Run(t, q);
      assert s <= t && NextRun(t, 0).Some? && NextRun(t, 0).value < PKT_SIZE;
      LockedHasLocked(t, NextRun(t, 0).value);
      assert FrameStream(t).mode != InitialSync;
    }
  }

  lemma {:induction false} LockedHasLocked(s: seq<Byte>, p: nat)
    requires p <= |s|
    ensures Locked(s, p).mode != InitialSync
    decreases |s| - p
  {
    if p < |s| && s[p] == SYNC_BYTE && p + PKT_SIZE <= |s| {
      LockedHasLocked(s, p + PKT_SIZE);
    } else if p < |s| && s[p] != SYNC_BYTE && NextRun(s, p).Some? {
      LockedHasLocked(s, NextRun(s, p).value);
    }
  }

  /** Some offset below `PKT_SIZE` starts a confirmed run. */
  ghost predicate EarlyRun(s: seq<Byte>) {
    exists q: nat :: q < PKT_SIZE && Run(s, q)
  }

  /** A stream has locked exactly when it has an early run, and then has a packet. */
  lemma LockedIffEarlyRun(s: seq<Byte>)
    ensures FrameStream(s).mode != InitialSync <==> EarlyRun(s)
    ensures FrameStream(s).starts != [] <==> EarlyRun(s)
  {
    if EarlyRun(s) {
      var q: nat :| q < PKT_SIZE && Run(s, q);
      assert NextRun(s, 0).Some? && NextRun(s, 0).value <= q;
      LockedHasLocked(s, NextRun(s, 0).value);
    }
  }

  // ---------- The same steps, seen through the framer's window ----------

  /** Bytes that are not sync bytes cannot start a run. */
  lemma NoSyncRefutes(s: seq<Byte>, offset: nat, data: seq<Byte>, from: nat, to: nat)
    requires offset <= |s| && data == s[offset..] && from <= to <= |data|
    requires forall i | from <= i < to :: data[i] != SYNC_BYTE
    ensures forall i: nat | offset + from <= i < offset + to :: Refuted(s, i)
  {
    forall i: nat | offset + from <= i < offset + to ensures s[i] != SYNC_BYTE {
      assert s[i] == data[i - offset];
    }
  }

  /** Dropping a refuted candidate and the bytes up to the next sync byte. */
  lemma TracksReject(mode: Mode, s: seq<Byte>, base: nat, window: seq<Byte>, discarded: nat, starts: seq<nat>)
    requires Tracks(mode, s, base, starts) && mode != Synced
    requires base + |window| <= |s| && window == s[base..base + |window|]
    requires Refuted(window, 0) && discarded <= |window|
    requires forall i | 0 < i < discarded :: window[i] != SYNC_BYTE
    ensures Tracks(mode, s, base + discarded, starts)
  {
    forall i: nat | base <= i < base + discarded ensures Refuted(s, i) {
      if i > base {
        assert s[i] == window[i - base];
      }
    }
    TracksSkip(mode, s, base, base + discarded, starts);
  }

  /** Emitting the first `n` packets of a confirmed probe. */
  lemma {:induction false} TracksBurst(mode: Mode, s: seq<Byte>, base: nat, n: nat, starts: seq<nat>)
    requires Tracks(mode, s, base, starts) && mode != Synced && n <= 4
    requires mode == InitialSync ==> base < PKT_SIZE
    requires Run(s, base)
    ensures Tracks(Synced, s, base + n * PKT_SIZE, starts + Burst(base)[..n])
    decreases n
  {
    hide Tracks;
    if n == 0 {
      TracksLock(mode, s, base, starts);
      assert starts + Burst(base)[..0] == starts;
    } else {
      var i := n - 1;
      TracksBurst(mode, s, base, i, starts);
      assert i == 0 || i == 1 || i == 2 || i == 3;
      TracksPacket(s, base + i * PKT_SIZE, starts + Burst(base)[..i]);
      assert starts + Burst(base)[..i] + [base + i * PKT_SIZE] == starts + Burst(base)[..n];
    }
  }

  /** A confirmed window is a run of the stream, and holds its packets. */
  lemma ConfirmedWindow(s: seq<Byte>, base: nat, window: seq<Byte>, n: nat)
    requires base + |window| <= |s| && window == s[base..base + |window|]
    requires |window| == PROBE_SIZE && !Refuted(window, 0) && n <= 4
    ensures Run(s, base)
    ensures Packets(window, Burst(0)[..n]) == Packets(s, Burst(base)[..n])
  {
    forall i | 0 <= i < n
      ensures PacketAt(window, Burst(0)[..n][i]) == PacketAt(s, Burst(base)[..n][i])
    {
      var o := Burst(0)[..n][i];
      assert i == 0 || i == 1 || i == 2 || i == 3;
      assert Burst(base)[..n][i] == base + o && o + PKT_SIZE <= PROBE_SIZE;
      SliceOfSlice(s, base, base + PROBE_SIZE, o, o + PKT_SIZE);
    }
  }

  /** The first `n` packets of a confirmed window are the next ones of the framing. */
  lemma ConfirmedPackets(mode: Mode, s: seq<Byte>, base: nat, window: seq<Byte>, n: nat, starts: seq<nat>)
    requires Tracks(mode, s, base, starts) && mode != Synced && (mode == InitialSync ==> base < PKT_SIZE)
    requires base + |window| <= |s| && window == s[base..base + |window|]
    requires |window| == PROBE_SIZE && !Refuted(window, 0) && n <= 4
    ensures Packets(window, Burst(0)[..n]) == Packets(s, Burst(base)[..n])
    ensures Tracks(Synced, s, base + n * PKT_SIZE, starts + Burst(base)[..n])
    ensures starts + Burst(base)[..n] <= FrameStream(s).starts
  {
    hide Tracks, Refuted, Run, Packets, FrameStream, Burst;
    ConfirmedWindow(s, base, window, n);
    TracksBurst(mode, s, base, n, starts);
    TracksPrefix(Synced, s, base + n * PKT_SIZE, starts + Burst(base)[..n]);
  }

  lemma TracksPrefix(mode: Mode, s: seq<Byte>, base: nat, starts: seq<nat>)
    requires Tracks(mode, s, base, starts)
    ensures starts <= FrameStream(s).starts
  {
    assert FrameStream(s) == Rest(mode, s, base).After(starts);
  }

  // ---------- What a handler has been given ----------

  /** The calls grew from `c0` to `c1` by the packets that the starts gained from `st0`
      to `st1`, in order. */
  ghost predicate HandedOver(s: seq<Byte>, st0: seq<nat>, c0: seq<PacketBytes>, st1: seq<nat>, c1: seq<PacketBytes>) {
    st0 <= st1 && c1 == c0 + Packets(s, st1[|st0|..])
  }

  lemma HandedNothing(s: seq<Byte>, st: seq<nat>, c: seq<PacketBytes>)
    ensures HandedOver(s, st, c, st, c)
  {
    assert c + [] == c;
  }

  lemma HandedChain(s: seq<Byte>, st0: seq<nat>, c0: seq<PacketBytes>, st1: seq<nat>, c1: seq<PacketBytes>,
                    st2: seq<nat>, c2: seq<PacketBytes>)
    requires HandedOver(s, st0, c0, st1, c1) && HandedOver(s, st1, c1, st2, c2)
    ensures HandedOver(s, st0, c0, st2, c2)
  {
    hide Packets;
    var a, b := st1[|st0|..], st2[|st1|..];
    assert st2[|st0|..] == a + b;
    PacketsSplit(s, a, b);
    assert c0 + (Packets(s, a) + Packets(s, b)) == c0 + Packets(s, a) + Packets(s, b);
  }

  lemma FrameTail(s: seq<Byte>, n: nat)
    requires n <= |FrameStream(s).starts|
    ensures Frame(s)[n..] == Packets(s, FrameStream(s).starts[n..])
  {
  }

  lemma ServedInFull(accept: seq<PacketBytes> -> bool, s: seq<Byte>, st0: seq<nat>, c0: seq<PacketBytes>,
                     st1: seq<nat>, c1: seq<PacketBytes>)
    requires HandedOver(s, st0, c0, st1, c1) && AllAccepted(accept, c0, c1)
    requires FrameStream(s).starts == st1
    ensures st0 <= FrameStream(s).starts
    ensures c1 == c0 + Frame(s)[|st0|..]
    ensures Served(accept, c0, Frame(s)[|st0|..], c1) && !Refused(accept, c0, c1)
  {
    hide Packets, Frame, FrameStream;
    FrameTail(s, |st0|);
    assert c1[..|c1|] == c1;
  }

  lemma ServedUpToRefusal(accept: seq<PacketBytes> -> bool, s: seq<Byte>, st0: seq<nat>, c0: seq<PacketBytes>,
                          st1: seq<nat>, c1: seq<PacketBytes>)
    requires HandedOver(s, st0, c0, st1, c1) && AcceptedBut(accept, c0, c1) && Refused(accept, c0, c1)
    requires st1 <= FrameStream(s).starts
    ensures st0 <= FrameStream(s).starts
    ensures Served(accept, c0, Frame(s)[|st0|..], c1)
  {
    hide Packets, Frame, FrameStream;
    var all := FrameStream(s).starts;
    FrameTail(s, |st0|);
    assert all[|st0|..] == st1[|st0|..] + all[|st1|..];
    PacketsSplit(s, st1[|st0|..], all[|st1|..]);
  }

  /** What a longer stream offers is what the shorter one offered, and then the rest. */
  lemma OfferedSplits(s: seq<Byte>, t: seq<Byte>, n: nat)
    requires s <= t && n <= |Frame(s)|
    ensures |Frame(s)| <= |Frame(t)|
    ensures Frame(t)[n..] == Frame(s)[n..] + Frame(t)[|Frame(s)|..]
  {
    hide Frame;
    FrameGrows(s, t);
  }

  /** A hopeless stream stays without packets. */
  lemma HopelessOffersNothing(s: seq<Byte>, t: seq<Byte>)
    requires Hopeless(s) && s <= t
    ensures !EarlyRun(t) && Frame(t) == [] && Frame(s) == []
  {
    HopelessIsFinal(s);
    LockedIffEarlyRun(t);
  }

  /** Calls that serve what was read also serve the whole input, if reading stopped
      only at its end, at a refusal, or beyond hope. */
  lemma ServedOfAll(accept: seq<PacketBytes> -> bool, c0: seq<PacketBytes>, read: seq<Byte>, all: seq<Byte>,
                    calls: seq<PacketBytes>)
    requires read <= all && Served(accept, c0, Frame(read), calls)
    requires read == all || Refused(accept, c0, calls) || Hopeless(read)
    ensures Served(accept, c0, Frame(all), calls)
    ensures Refused(accept, c0, calls) ==> EarlyRun(all)
    ensures Hopeless(read) ==> !EarlyRun(all)
  {
    hide Frame, FrameStream, Hopeless, EarlyRun;
    FrameGrows(read, all);
    if Hopeless(read) {
      HopelessOffersNothing(read, all);
    }
    if Refused(accept, c0, calls) {
      ServedMore(accept, c0, Frame(read), Frame(all), calls);
      assert |c0| < |calls| <= |c0 + Frame(all)|;
      LockedIffEarlyRun(all);
    }
  }
}
