/** The byte-stream framer, with its in-place probe buffer. */
module PacketFraming {
  import opened TransportStream
  import opened Framing
  import opened FramingTheorems
  import opened FramerRelation
  import opened PacketHandling
  import opened InitialScan

  const CHUNK_SIZE := 64 * 1024

  datatype FeedResult = Continue | NeedMoreData | Stop

  datatype ReadFrameStatus = Ok | Failed | NoSync

  /** What has been served when reading ended with the chunks `read` on top of `before`, and
      an initial search had stood at `base`. The last chunk was read because nothing had
      been refused of the others, nor had sync failed on them. */
  ghost predicate ReadInTime(read: seq<seq<Byte>>, before: seq<Byte>, base: nat, failed: bool,
                             accept: seq<PacketBytes> -> bool, n: nat, c0: seq<PacketBytes>, calls: seq<PacketBytes>)
  {
    && read != [] && n <= |Frame(before + Joined(read))|
    && Served(accept, c0, Frame(before + Joined(read))[n..], calls)
    && var most := read[..|read| - 1];
       && (Refused(accept, c0, calls) ==> RefusedBeyond(before + Joined(most), n, c0, calls))
       && (failed ==>
             && base <= |before| && Standing(before, base, most) < PKT_SIZE
             && (read[|read| - 1] != [] ==> Standing(before, base, read) >= PKT_SIZE))
  }

  /** The calls made go beyond the packets of `s`. */
  ghost predicate RefusedBeyond(s: seq<Byte>, n: nat, c0: seq<PacketBytes>, calls: seq<PacketBytes>) {
    n <= |Frame(s)| && c0 + Frame(s)[n..] < calls
  }

  /** Reading ended without any more bytes. */
  lemma NothingRead(read: seq<seq<Byte>>, before: seq<Byte>, base: nat, failed: bool,
                    accept: seq<PacketBytes> -> bool, n: nat, c0: seq<PacketBytes>, calls: seq<PacketBytes>)
    requires n <= |Frame(before + Joined(read))|
    requires Served(accept, c0, Frame(before + Joined(read))[n..], calls) && !Refused(accept, c0, calls)
    requires failed ==> base <= |before| && Standing(before, base, read) < PKT_SIZE
    ensures ReadInTime(read + [[]], before, base, failed, accept, n, c0, calls)
    ensures before + Joined(read + [[]]) == before + Joined(read)
  {
    hide FrameStream, Frame, Served, Refused, Standing, Joined;
    JoinedGrows(before, read, []);
    assert (read + [[]])[..|read|] == read;
    assert before + Joined(read) + [] == before + Joined(read);
  }

  /** Calls that serve the chunks read serve the whole input, as reading stopped in time. */
  lemma ServedByReads(read: seq<seq<Byte>>, rest: seq<Byte>, failed: bool,
                      accept: seq<PacketBytes> -> bool, c0: seq<PacketBytes>, calls: seq<PacketBytes>)
    requires ReadInTime(read, [], 0, failed, accept, 0, c0, calls)
    requires rest == [] || Refused(accept, c0, calls) || Hopeless(Joined(read))
    ensures Served(accept, c0, Frame(Joined(read) + rest), calls)
    ensures Refused(accept, c0, calls) ==> EarlyRun(Joined(read) + rest)
  {
    hide FrameStream, Frame, Served, Refused, EarlyRun, Hopeless, Joined, Standing;
    var s := Joined(read);
    assert [] + s == s && Frame(s)[0..] == Frame(s) && s + [] == s;
    ServedOfAll(accept, c0, s, s + rest, calls);
  }

  class PacketFramer {
    /** The probe window while seeking, the split packet while synced. */
    const pending: array<Byte>
    var pendingSize: nat
    var initialOffset: nat
    var mode: Mode
    var initialSyncFailed: bool

    /** All bytes passed to `Feed` so far, and where the packets handed over start. */
    ghost var stream: seq<Byte>
    ghost var starts: seq<nat>

    predicate HasInitialSyncFailed()
      reads this
    {
      initialSyncFailed
    }

    /** `pending` holds the last of the first `pos` bytes of the stream. */
    ghost predicate Buffered(pos: nat)
      reads this`stream, this`pendingSize, pending
    {
      && pendingSize <= pending.Length && pendingSize <= pos <= |stream|
      && pending[..pendingSize] == stream[pos - pendingSize..pos]
    }

    /** A sync byte is in front. */
    ghost predicate AtCandidate()
      reads this`pendingSize, pending
    {
      0 < pendingSize <= pending.Length && pending[0] == SYNC_BYTE
    }

    /** What holds at every moment when the first `pos` bytes of the stream have been
        consumed: `pending` holds the last of them, and the candidate or packet boundary
        in front of it tracks the framing of the stream. */
    ghost predicate Core(pos: nat)
      reads this, pending
    {
      && pending.Length == PROBE_SIZE
      && pendingSize <= PROBE_SIZE && pendingSize <= pos <= |stream|
      && Buffered(pos)
      && !initialSyncFailed
      && (mode == InitialSync ==> starts == [] && initialOffset + pendingSize == pos && initialOffset < PKT_SIZE)
      && Tracks(mode, stream, pos - pendingSize, starts)
    }

    /** The invariant between the steps of `Feed`. */
    ghost predicate At(pos: nat)
      reads this, pending
    {
      && Core(pos)
      && pendingSize < (if mode == Synced then PKT_SIZE else PROBE_SIZE)
      && (pendingSize > 0 ==> pending[0] == SYNC_BYTE)
    }

    /** The invariant between calls that returned true. */
    ghost predicate Valid()
      reads this, pending
    {
      At(|stream|)
    }

    constructor ()
      ensures Valid() && fresh(pending)
      ensures stream == [] && starts == [] && mode == InitialSync && initialOffset == 0
    {
      pending := new Byte[PROBE_SIZE];
      pendingSize := 0;
      initialOffset := 0;
      mode := InitialSync;
      initialSyncFailed := false;
      stream := [];
      starts := [];
      TracksAtStart();
    }

    lemma FirstByte(pos: nat)
      requires Buffered(pos)
      ensures pendingSize > 0 ==> stream[pos - pendingSize] == pending[0]
    {
      assert pendingSize > 0 ==> pending[..pendingSize][0] == stream[pos - pendingSize..pos][0];
    }

    /** Between calls the framer has delivered the framing of its input, no more and no
        less, and its mode is the one the input calls for. It holds the end of the input:
        all that lies beyond the last packet, except that while it searches it has dropped
        what cannot start a run. It seeks only from a boundary that lost its sync byte and
        with no run behind it. */
    lemma ValidMeansFramed()
      requires Valid()
      ensures FrameStream(stream) == Frames(starts, mode) && !initialSyncFailed
      ensures pending[..pendingSize] == stream[|stream| - pendingSize..]
      ensures match mode
              case InitialSync => starts == [] && initialOffset + pendingSize == |stream|
              case SeekingSync =>
                var end := EndOf(0, starts);
                && end + pendingSize <= |stream| && end < |stream|
                && stream[end] != SYNC_BYTE && NextRun(stream, end).None?
              case Synced => EndOf(0, starts) + pendingSize == |stream|
      ensures Hopeless(stream) ==> |stream| <= (PKT_SIZE - 1) + (PROBE_SIZE - 1)
    {
      hide FrameStream, Hopeless;
      var base := |stream| - pendingSize;
      FramedAtEnd();
      HopelessIsFinal(stream);
      hide Tracks, NextRun;
      match mode
      case InitialSync =>
      case SeekingSync => SeekingFromLostBoundary(stream);
      case Synced => NothingLostWhileSynced(stream, base, starts);
    }

    lemma FramedAtEnd()
      requires Valid()
      ensures FrameStream(stream) == Frames(starts, mode)
      ensures EndOf(0, starts) <= |stream| - pendingSize
      ensures pendingSize > 0 ==> stream[|stream| - pendingSize] == SYNC_BYTE
    {
      hide Tracks;
      FirstByte(|stream|);
      hide Buffered;
      TracksAtEnd(mode, stream, |stream| - pendingSize, starts);
    }

    /** Between calls every byte received is skipped, delivered or held, exactly once and
        in order; what is held is in `pending`. */
    lemma EveryByteIsAccountedFor()
      requires Valid()
      ensures EndOf(0, starts) + pendingSize <= |stream|
      ensures AccountsForAll(stream, pendingSize, Account(stream, starts, pendingSize))
      ensures pending[..pendingSize] == stream[|stream| - pendingSize..]
    {
      hide AccountsForAll, Account;
      ValidMeansFramed();
      FramedAtEnd();
      hide FrameStream, Tracks, NextRun;
      Conservation(stream, pendingSize);
    }

    method EmitPacket(packet: PacketBytes, handler: PacketHandler) returns (ok: bool)
      modifies handler`calls
      ensures handler.calls == old(handler.calls) + [packet] && ok == handler.accept(handler.calls)
    {
      ok := handler.OnPacket(packet);
    }

    /** Emits the packets of a confirmed probe window, up to the first refusal. */
    method EmitSyncConfirmedPackets(handler: PacketHandler) returns (ok: bool, ghost emitted: nat)
      requires pending.Length == PROBE_SIZE
      modifies handler`calls
      ensures emitted <= 4
      ensures handler.calls == old(handler.calls) + Packets(pending[..], Burst(0)[..emitted])
      ensures if ok then emitted == 4 && Taken(handler, old(handler.calls))
              else AcceptedBut(handler.accept, old(handler.calls), handler.calls)
                   && Refused(handler.accept, old(handler.calls), handler.calls)
    {
      emitted := 0;
      for index := 0 to 4
        invariant emitted == index
        invariant handler.calls == old(handler.calls) + Packets(pending[..], Burst(0)[..index])
        invariant Taken(handler, old(handler.calls))
      {
        ghost var before := handler.calls;
        ok := EmitPacket(pending[index * PKT_SIZE..(index + 1) * PKT_SIZE], handler);
        emitted := emitted + 1;
        assert Burst(0)[..emitted] == Burst(0)[..index] + [index * PKT_SIZE];
        OneMoreCall(handler.accept, old(handler.calls), before, handler.calls[|before|]);
        if !ok {
          return;
        }
      }
      ok := true;
    }

    /** The stream ends with the bytes of the call. */
    ghost predicate IsTail(data: seq<Byte>)
      reads this`stream
    {
      |data| <= |stream| && data == stream[|stream| - |data|..]
    }

    /** The invariant inside `Feed(data)`, with the cursor at `cursor`. */
    ghost predicate Feeding(data: seq<Byte>, cursor: nat)
      reads this, pending
    {
      && cursor <= |data| <= |stream|
      && IsTail(data)
      && At(|stream| - |data| + cursor)
    }

    /** Since `starts` was `st0` and the calls were `c0`, the handler was called with the
        packets that `starts` gained, in order. */
    ghost predicate Handed(handler: PacketHandler, st0: seq<nat>, c0: seq<PacketBytes>)
      reads this`stream, this`starts, handler
    {
      HandedOver(stream, st0, c0, starts, handler.calls)
    }

    /** The handler accepted all calls since `c0`. */
    ghost predicate Taken(handler: PacketHandler, c0: seq<PacketBytes>)
      reads handler
    {
      AllAccepted(handler.accept, c0, handler.calls)
    }

    /** Framing has stopped for good: initial sync failed beyond recovery, or the last of
        the calls since `c0` was refused. */
    ghost predicate Halted(handler: PacketHandler, c0: seq<PacketBytes>)
      reads this`stream, this`starts, this`initialSyncFailed, handler
    {
      if initialSyncFailed then
        Hopeless(stream) && starts == [] && AllAccepted(handler.accept, c0, handler.calls)
      else
        && starts <= FrameStream(stream).starts
        && AcceptedBut(handler.accept, c0, handler.calls)
        && Refused(handler.accept, c0, handler.calls)
    }

    /** Copies input bytes behind those already in `pending`. */
    method Copy(data: seq<Byte>, from: nat, count: nat)
      requires pendingSize + count <= pending.Length && from + count <= |data|
      modifies this`pendingSize, pending
      ensures pendingSize == old(pendingSize) + count
      ensures pending[..pendingSize] == old(pending[..pendingSize]) + data[from..from + count]
    {
      var size := pendingSize;
      forall i | 0 <= i < count {
        pending[size + i] := data[from + i];
      }
      pendingSize := size + count;
    }

    /** Copies the next bytes of the stream. */
    method CopyNext(data: seq<Byte>, from: nat, count: nat)
      requires |data| <= |stream| && IsTail(data)
      requires pendingSize + count <= pending.Length && from + count <= |data|
      requires Buffered(|stream| - |data| + from)
      modifies this`pendingSize, pending
      ensures pendingSize == old(pendingSize) + count
      ensures Buffered(|stream| - |data| + from + count)
      ensures pendingSize > 0 ==> pending[0] == if old(pendingSize) > 0 then old(pending[0]) else data[from]
    {
      ghost var pos, before := |stream| - |data| + from, pending[..pendingSize];
      SuffixSlice(stream, data, from, from + count);
      SliceJoin(stream, pos - pendingSize, pos, pos + count);
      Copy(data, from, count);
      assert pendingSize > 0 ==> pending[0] == (before + data[from..from + count])[0];
    }

    /** Consumes `count` input bytes into the window. */
    method Buffer(data: seq<Byte>, from: nat, count: nat)
      requires |data| <= |stream| && IsTail(data) && Core(|stream| - |data| + from)
      requires pendingSize + count <= PROBE_SIZE && from + count <= |data|
      modifies this`pendingSize, pending
      ensures pendingSize == old(pendingSize) + count
      ensures Core(|stream| - |data| + from + count)
      ensures old(pendingSize) > 0 ==> pending[0] == old(pending[0])
      ensures old(pendingSize) == 0 && count > 0 ==> pending[0] == data[from]
    {
      hide IsTail, Tracks, Buffered;
      CopyNext(data, from, count);
    }

    method PendingSyncBytesAreValid() returns (ok: bool)
      requires pending.Length == PROBE_SIZE && pendingSize <= PROBE_SIZE
      ensures ok <==> !Refuted(pending[..pendingSize], 0)
    {
      for index := 0 to 4
        invariant !Refuted(pending[..Min(pendingSize, index * PKT_SIZE)], 0)
      {
        var offset := index * PKT_SIZE;
        if pendingSize > offset && pending[offset] != SYNC_BYTE {
          return false;
        }
      }
      return true;
    }

    /** Drops the candidate and everything up to the next sync byte, which moves to
        the front. */
    method DiscardPendingUntilNextSync() returns (discarded: nat)
      requires 0 < pendingSize <= pending.Length
      modifies this`pendingSize, pending
      ensures 0 < discarded && discarded + pendingSize == old(pendingSize)
      ensures discarded == FindSync(old(pending[..pendingSize]), 1)
      ensures pending[..pendingSize] == old(pending[..pendingSize])[discarded..]
      ensures pendingSize > 0 ==> pending[0] == SYNC_BYTE
    {
      var window := pending[..pendingSize];
      discarded := FindSync(window, 1);
      hide FindSync;
      pendingSize := pendingSize - discarded;
      forall i | 0 <= i < pendingSize {
        pending[i] := pending[discarded + i];
      }
      assert pending[..pendingSize] == window[discarded..];
    }

    /** With nothing buffered, only the position matters. */
    lemma EmptyAt(pos: nat)
      requires pending.Length == PROBE_SIZE && pendingSize == 0 && pos <= |stream|
      requires mode == InitialSync ==> starts == [] && initialOffset == pos < PKT_SIZE
      requires !initialSyncFailed && Tracks(mode, stream, pos, starts)
      ensures At(pos)
    {
      hide Tracks;
      assert pending[..0] == stream[pos..pos];
    }

    /** The window without its refuted candidate is the end of the input again. */
    method DropCandidate(ghost pos: nat) returns (discarded: nat)
      requires Buffered(pos) && pendingSize > 0
      modifies this`pendingSize, pending
      ensures Buffered(pos) && 0 < discarded && discarded + pendingSize == old(pendingSize)
      ensures discarded == FindSync(old(pending[..pendingSize]), 1)
      ensures pendingSize > 0 ==> pending[0] == SYNC_BYTE
    {
      hide FindSync;
      ghost var base := pos - pendingSize;
      discarded := DiscardPendingUntilNextSync();
      SliceOfSlice(stream, base, pos, discarded, pos - base);
    }

    /** Dropping a refuted candidate skips no run. */
    lemma RejectSkipsNoRun(pos: nat)
      requires Core(pos) && pendingSize > 0 && Refuted(pending[..pendingSize], 0) && mode != Synced
      ensures var base, discarded := pos - pendingSize, FindSync(pending[..pendingSize], 1);
              && FindSync(stream[..pos], base + 1) == base + discarded
              && Tracks(mode, stream, base + discarded, starts)
    {
      hide Tracks, Refuted, FindSync;
      var base, window := pos - pendingSize, pending[..pendingSize];
      assert window == stream[base..pos];
      hide Buffered;
      FindSyncInWindow(stream, base, pos);
      TracksReject(mode, stream, base, window, FindSync(window, 1), starts);
    }

    /** Counts off the discarded candidate, and gives up initial sync at its bound. */
    method RejectCandidate(ghost pos: nat, handler: PacketHandler, initialSync: bool) returns (ok: bool)
      requires Core(pos) && pendingSize > 0 && Refuted(pending[..pendingSize], 0)
      requires mode == if initialSync then InitialSync else SeekingSync
      modifies this`pendingSize, this`initialOffset, this`initialSyncFailed, pending
      ensures ok ==> At(pos) && !initialSyncFailed
      ensures !ok ==> initialSync && initialSyncFailed && Halted(handler, old(handler.calls))
      ensures initialSync ==> initialOffset == FindSync(stream[..pos], old(initialOffset) + 1)
                              && (!ok <==> initialOffset >= PKT_SIZE)
    {
      hide Buffered, Tracks, Refuted, Hopeless, FindSync;
      RejectSkipsNoRun(pos);
      var discarded := DropCandidate(pos);
      if initialSync {
        initialOffset := initialOffset + discarded;
        if initialOffset >= PKT_SIZE {
          initialSyncFailed := true;
          NeverLocks(stream, initialOffset);
          FailureHalts(handler);
          return false;
        }
      }
      return true;
    }

    /** The first `n` packets of a confirmed window are the next ones of the framing. */
    lemma ConfirmedBurst(pos: nat, n: nat)
      requires Core(pos) && pendingSize == PROBE_SIZE && !Refuted(pending[..pendingSize], 0)
      requires mode != Synced && n <= 4
      ensures var base := pos - pendingSize;
              && Packets(pending[..], Burst(0)[..n]) == Packets(stream, Burst(base)[..n])
              && Tracks(Synced, stream, base + n * PKT_SIZE, starts + Burst(base)[..n])
              && starts + Burst(base)[..n] <= FrameStream(stream).starts
    {
      hide Tracks, Refuted, Run, Packets, FrameStream, Burst;
      var base, window := pos - pendingSize, pending[..pendingSize];
      assert window == pending[..] == stream[base..pos];
      hide Buffered;
      ConfirmedPackets(mode, stream, base, window, n, starts);
    }

    /** Emits a confirmed probe and switches to packet delivery. */
    method ConfirmProbe(ghost pos: nat, handler: PacketHandler) returns (ok: bool)
      requires Core(pos) && pendingSize == PROBE_SIZE && !Refuted(pending[..pendingSize], 0)
      requires mode != Synced
      modifies this`pendingSize, this`mode, this`starts, handler`calls
      ensures Handed(handler, old(starts), old(handler.calls))
      ensures ok ==> At(pos) && mode == Synced && Taken(handler, old(handler.calls))
      ensures !ok ==> !initialSyncFailed && mode == old(mode) && Halted(handler, old(handler.calls))
    {
      hide Buffered, Tracks, Refuted, Hopeless, Packets, FrameStream, Burst;
      ghost var base := pos - pendingSize;
      ghost var emitted;
      ok, emitted := EmitSyncConfirmedPackets(handler);
      ConfirmedBurst(pos, emitted);
      starts := starts + Burst(base)[..emitted];
      pendingSize := 0;
      if ok {
        mode := Synced;
        EmptyAt(pos);
      }
    }

    /** With nothing buffered, skipping to the next sync byte skips no run. */
    lemma SkipsNoRun(data: seq<Byte>, cursor: nat)
      requires Feeding(data, cursor) && pendingSize == 0 && mode != Synced
      ensures var offset, sync := |stream| - |data|, FindSync(data, cursor);
              && FindSync(stream, offset + cursor) == offset + sync
              && Tracks(mode, stream, offset + sync, starts)
    {
      hide Buffered, Tracks, Refuted, FindSync;
      var offset, sync := |stream| - |data|, FindSync(data, cursor);
      NoSyncRefutes(stream, offset, data, cursor, sync);
      FindSyncInSuffix(stream, data, cursor);
      TracksSkip(mode, stream, offset + cursor, offset + sync, starts);
    }

    /** With nothing buffered, moves the cursor to the next sync byte. */
    method SkipToSync(data: seq<Byte>, cursor: nat, initialSync: bool) returns (ok: bool, sync: nat)
      requires Feeding(data, cursor) && pendingSize == 0
      requires mode == if initialSync then InitialSync else SeekingSync
      modifies this`initialOffset, this`initialSyncFailed
      ensures cursor <= sync <= |data|
      ensures ok ==> Feeding(data, sync) && (sync < |data| ==> data[sync] == SYNC_BYTE)
      ensures !ok ==> initialSync && initialSyncFailed && Hopeless(stream) && starts == []
      ensures initialSync ==> initialOffset == FindSync(stream, |stream| - |data| + cursor)
                              && (!ok <==> initialOffset >= PKT_SIZE)
    {
      hide IsTail, Buffered, Tracks, Hopeless, FindSync;
      SkipsNoRun(data, cursor);
      sync := FindSync(data, cursor);
      if initialSync {
        initialOffset := initialOffset + (sync - cursor);
        if initialOffset >= PKT_SIZE {
          initialSyncFailed := true;
          NeverLocks(stream, |stream| - |data| + sync);
          return false, sync;
        }
      }
      EmptyAt(|stream| - |data| + sync);
      hide At;
      return true, sync;
    }

    /** Fills the window with as much input as the probe can take. */
    method Fill(data: seq<Byte>, from: nat) returns (next: nat)
      requires Feeding(data, from) && from < |data| && mode != Synced
      requires pendingSize == 0 ==> data[from] == SYNC_BYTE
      modifies this`pendingSize, pending
      ensures from < next <= |data| && Core(|stream| - |data| + next)
      ensures AtCandidate() && (pendingSize < PROBE_SIZE ==> next == |data|)
      ensures mode == InitialSync ==> initialOffset < |stream|
                                      && |stream| - |data| + next == Min(initialOffset + PROBE_SIZE, |stream|)
    {
      hide IsTail, Buffered, Tracks;
      var needed := PROBE_SIZE - pendingSize;
      var copied := Min(needed, |data| - from);
      assert mode == InitialSync ==> initialOffset + pendingSize == |stream| - |data| + from;
      assert pending.Length == PROBE_SIZE;
      hide Core;
      Buffer(data, from, copied);
      next := from + copied;
    }

    /** Extends the probe window at the candidate, finding a candidate first if there
        is none. Continues when there is a window to check. */
    method FillWindow(data: seq<Byte>, cursor: nat, initialSync: bool) returns (result: FeedResult, next: nat)
      requires Feeding(data, cursor) && cursor < |data|
      requires mode == if initialSync then InitialSync else SeekingSync
      modifies this`initialOffset, this`initialSyncFailed, this`pendingSize, pending
      ensures cursor <= next <= |data| && (result == NeedMoreData ==> cursor < next)
      ensures result == Stop ==> initialSync && initialSyncFailed && Hopeless(stream) && starts == []
      ensures result == NeedMoreData ==> Feeding(data, next) && next == |data|
      ensures result == Continue ==>
                && Core(|stream| - |data| + next)
                && cursor < next && AtCandidate()
                && (pendingSize < PROBE_SIZE ==> next == |data|)
      ensures initialSync ==>
                var start := ScanStart(stream, old(initialOffset), |stream| - |data| + cursor);
                && initialOffset == start
                && (result == Stop <==> start >= PKT_SIZE)
                && (result == NeedMoreData ==> start == |stream|)
                && (result == Continue ==>
                      start < |stream| && |stream| - |data| + next == Min(start + PROBE_SIZE, |stream|))
    {
      hide IsTail, Buffered, Tracks, Hopeless, FindSync;
      assert initialSync ==> initialOffset + pendingSize == |stream| - |data| + cursor && initialOffset < PKT_SIZE;
      hide Core;
      next := cursor;
      if pendingSize == 0 {
        var ok;
        ok, next := SkipToSync(data, cursor, initialSync);
        if !ok {
          return Stop, next;
        }
        if next == |data| {
          return NeedMoreData, next;
        }
      }
      next := Fill(data, next);
      return Continue, next;
    }

    /** A step of the initial search from `base0` does what `CandidateAfter` foretells. */
    ghost predicate Foretells(base0: nat, data: seq<Byte>, cursor: nat, result: FeedResult, next: nat)
      reads this`stream, this`mode, this`initialSyncFailed, this`initialOffset
    {
      && |data| <= |stream|
      && Foretold(stream, base0, |stream| - |data| + cursor, initialSyncFailed,
                  mode == InitialSync && result != Stop, initialOffset, |stream| - |data| + next)
    }

    /** A window that is not complete yet may wait for more input. */
    lemma WaitingAt(pos: nat)
      requires Core(pos) && AtCandidate() && pendingSize < PROBE_SIZE && mode != Synced
      ensures At(pos)
    {
      hide Core;
    }

    /** Checks the boundaries buffered so far: drops a refuted candidate, waits for the
        rest of a probe, or confirms it. */
    method CheckWindow(ghost pos: nat, handler: PacketHandler, initialSync: bool) returns (result: FeedResult)
      requires Core(pos) && AtCandidate()
      requires pendingSize < PROBE_SIZE ==> pos == |stream|
      requires mode == if initialSync then InitialSync else SeekingSync
      modifies this`pendingSize, this`initialOffset, this`initialSyncFailed, this`mode, this`starts
      modifies pending, handler`calls
      ensures Handed(handler, old(starts), old(handler.calls))
      ensures result != Stop ==> At(pos) && Taken(handler, old(handler.calls))
      ensures result == NeedMoreData ==> pos == |stream|
      ensures result == Stop ==> Halted(handler, old(handler.calls))
      ensures initialSync && Refuted(stream[old(initialOffset)..pos], 0) ==>
                && initialOffset == FindSync(stream[..pos], old(initialOffset) + 1)
                && (if initialOffset >= PKT_SIZE then initialSyncFailed && result == Stop
                    else !initialSyncFailed && result != Stop && mode == InitialSync)
      ensures initialSync && !Refuted(stream[old(initialOffset)..pos], 0) ==>
                !initialSyncFailed
                && (result == NeedMoreData ==> initialOffset == old(initialOffset) && pos < initialOffset + PROBE_SIZE)
                && (result == Continue ==> mode == Synced)
      ensures !initialSync ==> !initialSyncFailed && mode != InitialSync
    {
      assert pending[..pendingSize] == stream[pos - pendingSize..pos];
      assert !initialSyncFailed && (initialSync ==> initialOffset == pos - pendingSize);
      assert pending.Length == PROBE_SIZE && pendingSize <= PROBE_SIZE;
      hide Core, At, AtCandidate, Buffered, Tracks, Refuted, Hopeless, FindSync, Handed, Taken, Halted;
      var ok := PendingSyncBytesAreValid();
      if !ok {
        ok := RejectCandidate(pos, handler, initialSync);
        NothingHanded(handler);
        return if ok then Continue else Stop;
      }

      if pendingSize < PROBE_SIZE {
        WaitingAt(pos);
        NothingHanded(handler);
        return NeedMoreData;
      }

      ok := ConfirmProbe(pos, handler);
      return if ok then Continue else Stop;
    }

    /** Checks the window up to `end` that `FillWindow` left when it started at `pos`. */
    method SettleWindow(ghost base: nat, ghost pos: nat, ghost end: nat, handler: PacketHandler, initialSync: bool)
      returns (result: FeedResult)
      requires Core(end) && AtCandidate()
      requires pendingSize < PROBE_SIZE ==> end == |stream|
      requires mode == if initialSync then InitialSync else SeekingSync
      requires initialSync ==>
                && pos < |stream| && InWindow(stream, base, pos)
                && initialOffset == ScanStart(stream, base, pos) < Min(PKT_SIZE, |stream|)
                && end == Min(initialOffset + PROBE_SIZE, |stream|)
      modifies this`pendingSize, this`initialOffset, this`initialSyncFailed, this`mode, this`starts
      modifies pending, handler`calls
      ensures Handed(handler, old(starts), old(handler.calls))
      ensures result != Stop ==> At(end) && Taken(handler, old(handler.calls))
      ensures result == NeedMoreData ==> end == |stream|
      ensures result == Stop ==> Halted(handler, old(handler.calls))
      ensures if initialSync then
                Foretold(stream, base, pos, initialSyncFailed, mode == InitialSync && result != Stop,
                         initialOffset, end)
              else !initialSyncFailed && mode != InitialSync
    {
      hide Tracks, Refuted, FindSync, CandidateAfter, Foretold;
      hide Handed, Taken, Halted, Hopeless;
      hide Core, At, InWindow;
      ghost var start := initialOffset;
      result := CheckWindow(end, handler, initialSync);
      if initialSync {
        ForetoldWindow(stream, base, pos, start, end, initialSyncFailed,
                       mode == InitialSync && result != Stop, initialOffset);
      }
    }

    method FeedSeekingSync(data: seq<Byte>, cursor: nat, handler: PacketHandler, initialSync: bool)
      returns (result: FeedResult, next: nat)
      requires Feeding(data, cursor) && cursor < |data|
      requires mode == if initialSync then InitialSync else SeekingSync
      modifies this`pendingSize, this`initialOffset, this`initialSyncFailed, this`mode, this`starts
      modifies pending, handler`calls
      ensures Handed(handler, old(starts), old(handler.calls))
      ensures result != Stop ==> Feeding(data, next) && cursor < next
                                 && Taken(handler, old(handler.calls))
      ensures result == NeedMoreData ==> next == |data|
      ensures result == Stop ==> Halted(handler, old(handler.calls))
      ensures if initialSync then Foretells(old(initialOffset), data, cursor, result, next)
              else !initialSyncFailed && mode != InitialSync
    {
      hide IsTail, Buffered, Tracks, Refuted, FindSync, CandidateAfter, Foretold;
      hide Handed, Taken, Halted, Hopeless;
      ghost var base, pos := initialOffset, |stream| - |data| + cursor;
      assert initialSync ==> InWindow(stream, base, pos);
      hide Core, At, InWindow;
      result, next := FillWindow(data, cursor, initialSync);
      if result != Continue {
        NothingHanded(handler);
        if result == Stop {
          FailureHalts(handler);
        }
        if initialSync {
          ForetoldNoWindow(stream, base, pos, initialSyncFailed, mode == InitialSync && result != Stop,
                           initialOffset, |stream| - |data| + next);
        }
        return;
      }
      result := SettleWindow(base, pos, |stream| - |data| + next, handler, initialSync);
    }

    /** Emits the packet at the boundary `base` while synced. */
    method EmitSynced(ghost base: nat, packet: PacketBytes, handler: PacketHandler) returns (ok: bool)
      requires Tracks(Synced, stream, base, starts) && !initialSyncFailed
      requires base + PKT_SIZE <= |stream| && packet == stream[base..base + PKT_SIZE] && packet[0] == SYNC_BYTE
      modifies this`starts, handler`calls
      ensures Handed(handler, old(starts), old(handler.calls)) && Tracks(Synced, stream, base + PKT_SIZE, starts)
      ensures ok ==> Taken(handler, old(handler.calls))
      ensures !ok ==> Halted(handler, old(handler.calls))
    {
      hide Tracks, FrameStream;
      ok := EmitPacket(packet, handler);
      TracksPacket(stream, base, starts);
      starts := starts + [base];
      TracksPrefix(Synced, stream, base + PKT_SIZE, starts);
      OneMoreCall(handler.accept, old(handler.calls), old(handler.calls), packet);
    }

    lemma FailureHalts(handler: PacketHandler)
      requires initialSyncFailed && Hopeless(stream) && starts == []
      ensures Halted(handler, handler.calls)
    {
      AllAcceptedOfNone(handler.accept, handler.calls);
    }

    lemma NothingHanded(handler: PacketHandler)
      ensures Handed(handler, starts, handler.calls) && Taken(handler, handler.calls)
    {
      HandedNothing(stream, starts, handler.calls);
      AllAcceptedOfNone(handler.accept, handler.calls);
    }

    /** Emits the packet that `pending` now holds in full. */
    method EmitBuffered(ghost pos: nat, handler: PacketHandler) returns (ok: bool)
      requires Core(pos) && pendingSize == PKT_SIZE && pending[0] == SYNC_BYTE && mode == Synced
      modifies this`pendingSize, this`starts, handler`calls
      ensures Handed(handler, old(starts), old(handler.calls))
      ensures ok ==> At(pos) && Taken(handler, old(handler.calls))
      ensures !ok ==> Halted(handler, old(handler.calls))
    {
      hide Tracks, Handed, Taken, Halted;
      var packet := pending[..PKT_SIZE];
      assert packet == stream[pos - PKT_SIZE..pos] && packet[0] == SYNC_BYTE;
      ok := EmitSynced(pos - PKT_SIZE, packet, handler);
      pendingSize := 0;
      EmptyAt(pos);
      hide Core;
    }

    /** Completes the packet split across calls, and emits it once it is whole. */
    method CompletePacket(data: seq<Byte>, cursor: nat, handler: PacketHandler) returns (result: FeedResult, next: nat)
      requires Feeding(data, cursor) && cursor < |data| && mode == Synced && pendingSize != 0
      modifies this`pendingSize, this`starts, pending, handler`calls
      ensures cursor < next <= |data| && Handed(handler, old(starts), old(handler.calls))
      ensures result != Stop ==> Feeding(data, next)
                                 && Taken(handler, old(handler.calls))
      ensures result == NeedMoreData ==> next == |data|
      ensures result == Stop ==> Halted(handler, old(handler.calls))
    {
      hide IsTail, Buffered, Tracks, Handed, Taken, Halted;
      assert pending.Length == PROBE_SIZE;
      hide Core;
      var needed := PKT_SIZE - pendingSize;
      var copied := Min(needed, |data| - cursor);
      Buffer(data, cursor, copied);
      next := cursor + copied;
      if pendingSize < PKT_SIZE {
        NothingHanded(handler);
        return NeedMoreData, next;
      }
      var ok := EmitBuffered(|stream| - |data| + next, handler);
      return if ok then Continue else Stop, next;
    }

    /** Emits a packet straight from the input. */
    method EmitWhole(data: seq<Byte>, cursor: nat, handler: PacketHandler) returns (ok: bool)
      requires Feeding(data, cursor) && cursor + PKT_SIZE <= |data| && mode == Synced && pendingSize == 0
      requires data[cursor] == SYNC_BYTE
      modifies this`starts, handler`calls
      ensures Handed(handler, old(starts), old(handler.calls))
      ensures ok ==> Feeding(data, cursor + PKT_SIZE) && Taken(handler, old(handler.calls))
      ensures !ok ==> Halted(handler, old(handler.calls))
    {
      hide Tracks, Handed, Taken, Halted;
      ghost var base := |stream| - |data| + cursor;
      SuffixSlice(stream, data, cursor, cursor + PKT_SIZE);
      ok := EmitSynced(base, data[cursor..cursor + PKT_SIZE], handler);
      EmptyAt(base + PKT_SIZE);
      hide Core;
    }

    /** A packet boundary that is not a sync byte: sync is lost, the byte is not consumed. */
    method LoseSync(data: seq<Byte>, cursor: nat)
      requires Feeding(data, cursor) && cursor < |data| && mode == Synced && pendingSize == 0
      requires data[cursor] != SYNC_BYTE
      modifies this`mode
      ensures Feeding(data, cursor) && mode == SeekingSync && !initialSyncFailed
    {
      hide Tracks;
      ghost var pos := |stream| - |data| + cursor;
      assert stream[pos] == data[cursor];
      TracksLoss(stream, pos, starts);
      mode := SeekingSync;
      EmptyAt(pos);
    }

    /** Keeps the start of a packet that the input does not complete. */
    method HoldRest(data: seq<Byte>, cursor: nat)
      requires Feeding(data, cursor) && cursor < |data| < cursor + PKT_SIZE && mode == Synced && pendingSize == 0
      requires data[cursor] == SYNC_BYTE
      modifies this`pendingSize, pending
      ensures Feeding(data, |data|) && !initialSyncFailed
    {
      hide IsTail, Buffered, Tracks;
      Buffer(data, cursor, |data| - cursor);
    }

    method FeedSynced(data: seq<Byte>, cursor: nat, handler: PacketHandler) returns (result: FeedResult, next: nat)
      requires Feeding(data, cursor) && cursor < |data| && mode == Synced
      modifies this`pendingSize, this`mode, this`starts, pending, handler`calls
      ensures Handed(handler, old(starts), old(handler.calls))
      ensures result != Stop ==> Feeding(data, next) && cursor <= next && Taken(handler, old(handler.calls))
      ensures !initialSyncFailed && mode != InitialSync
      ensures result == Continue ==> cursor < next || (cursor == next && mode == SeekingSync)
      ensures result == NeedMoreData ==> next == |data|
      ensures result == Stop ==> Halted(handler, old(handler.calls))
    {
      hide IsTail, Buffered, Tracks, Handed, Taken, Halted;
      assert !initialSyncFailed;
      hide At;
      next := cursor;
      if pendingSize != 0 {
        result, next := CompletePacket(data, cursor, handler);
        return;
      }

      if data[cursor] != SYNC_BYTE {
        LoseSync(data, cursor);
        NothingHanded(handler);
        return Continue, next;
      }

      if |data| - cursor < PKT_SIZE {
        HoldRest(data, cursor);
        NothingHanded(handler);
        return NeedMoreData, |data|;
      }

      var ok := EmitWhole(data, cursor, handler);
      if !ok {
        return Stop, next;
      }
      return Continue, next + PKT_SIZE;
    }

    /** One step of `Feed`, by mode. */
    method FeedStep(data: seq<Byte>, cursor: nat, handler: PacketHandler) returns (result: FeedResult, next: nat)
      requires Feeding(data, cursor) && cursor < |data|
      modifies this`pendingSize, this`initialOffset, this`initialSyncFailed, this`mode, this`starts
      modifies pending, handler`calls
      ensures Handed(handler, old(starts), old(handler.calls))
      ensures result != Stop ==> Feeding(data, next) && !initialSyncFailed && cursor <= next
                                 && Taken(handler, old(handler.calls))
      ensures result == Continue ==>
                cursor < next || (cursor == next && old(mode) == Synced && mode == SeekingSync)
      ensures result == NeedMoreData ==> next == |data|
      ensures if old(mode) == InitialSync then Foretells(old(initialOffset), data, cursor, result, next)
              else !initialSyncFailed && mode != InitialSync
      ensures result == Stop ==> Halted(handler, old(handler.calls))
    {
      hide IsTail, Buffered, Tracks, Handed, Taken, Halted, Foretells;
      match mode
      case InitialSync => result, next := FeedSeekingSync(data, cursor, handler, true);
      case SeekingSync => result, next := FeedSeekingSync(data, cursor, handler, false);
      case Synced => result, next := FeedSynced(data, cursor, handler);
    }

    /** The bytes of a call become part of the stream before any of them is consumed. */
    ghost method TakeInput(data: seq<Byte>)
      requires Valid()
      modifies this`stream
      ensures stream == old(stream) + data && Feeding(data, 0) && !initialSyncFailed
    {
      hide Tracks;
      TracksMoreInput(mode, stream, |stream| - pendingSize, starts, data);
      stream := stream + data;
      var pos := |stream| - |data|;
      assert stream[..pos] == old(stream) && stream[pos..] == data;
      assert stream[pos - pendingSize..pos] == old(stream)[pos - pendingSize..pos];
    }

    /** From where the call found it, the initial search has gone as foretold. */
    ghost predicate Searched(searched: bool, base0: nat, pos0: nat, stopped: bool, pos: nat)
      reads this`stream, this`mode, this`initialSyncFailed, this`initialOffset
    {
      if searched then
        Foretold(stream, base0, pos0, initialSyncFailed, mode == InitialSync && !stopped, initialOffset, pos)
      else mode != InitialSync && !initialSyncFailed
    }

    lemma SearchBegins(data: seq<Byte>)
      requires Feeding(data, 0)
      ensures var pos := |stream| - |data|;
              && Searched(mode == InitialSync, initialOffset, pos, false, pos)
              && (mode == InitialSync ==> initialOffset <= pos && Verdict(data, initialOffset))
    {
      hide IsTail, Buffered, Tracks, CandidateAfter, Settled, LatePair, Hopeless;
      var pos := |stream| - |data|;
      if mode == InitialSync {
        ForetoldStart(stream, initialOffset, pos, true);
        FirstByte(pos);
        if data != [] {
          FailsIff(stream, initialOffset, pos);
          CandidateSettles(stream, initialOffset, pos);
        } else {
          NothingNew(stream, initialOffset);
        }
      }
    }

    lemma SearchGoesOn(searched: bool, base0: nat, pos0: nat, searching: bool, base1: nat, pos1: nat,
                       stopped: bool, pos: nat)
      requires if searched then Foretold(stream, base0, pos0, false, searching, base1, pos1) else !searching
      requires if searching then
                 Foretold(stream, base1, pos1, initialSyncFailed, mode == InitialSync && !stopped, initialOffset, pos)
               else !initialSyncFailed && mode != InitialSync
      ensures Searched(searched, base0, pos0, stopped, pos)
    {
      hide Foretold;
      if searching {
        ForetoldChain(stream, base0, pos0, base1, pos1, initialSyncFailed, mode == InitialSync && !stopped,
                      initialOffset, pos);
      } else if searched {
        ForetoldOver(stream, base0, pos0, base1, pos1, initialOffset, pos);
      }
    }

    /** Where a call with `data` leaves the search that it resumes at `base0`. */
    ghost function SettledBy(data: seq<Byte>, base0: nat): nat
      requires base0 <= |stream|
      reads this`stream
    {
      if data == [] then base0 else Settled(stream, base0)
    }

    /** What the search of one whole call comes to. */
    ghost predicate SearchResult(ok: bool, data: seq<Byte>, base0: nat)
      reads this`stream, this`mode, this`initialSyncFailed, this`initialOffset
    {
      && base0 <= |stream|
      && (initialSyncFailed <==> SettledBy(data, base0) >= PKT_SIZE)
      && (ok && mode == InitialSync ==> initialOffset == SettledBy(data, base0))
    }

    /** What is foretold of a call with `data` that resumes the search at `base0`, without
        the search. */
    ghost predicate Verdict(data: seq<Byte>, base0: nat)
      reads this`stream
    {
      && |data| <= |stream| && InWindow(stream, base0, |stream| - |data|)
      && var r := CandidateAfter(stream, base0, |stream| - |data|);
         && (r >= PKT_SIZE <==> data != [] && Hopeless(stream) && !LatePair(stream, base0))
         && if r >= PKT_SIZE then SettledBy(data, base0) >= PKT_SIZE else r == SettledBy(data, base0)
    }

    lemma SearchEnds(data: seq<Byte>, ok: bool, base0: nat, pos: nat)
      requires Verdict(data, base0) && Searched(true, base0, |stream| - |data|, !ok, pos)
      requires ok ==> At(pos) && pos == |stream|
      ensures SearchResult(ok, data, base0)
      ensures initialSyncFailed <==> data != [] && Hopeless(stream) && !LatePair(stream, base0)
    {
      hide Buffered, Tracks, CandidateAfter, SettledBy, Foretold, Hopeless, LatePair;
      ForetoldEnd(stream, base0, |stream| - |data|, initialSyncFailed, mode == InitialSync && ok, initialOffset, pos);
    }

    /** Takes one step of a call that found the search at `base0` and the packets at
        `st0`, and that has called the handler since `c0`. */
    method Advance(data: seq<Byte>, cursor: nat, handler: PacketHandler, ghost st0: seq<nat>,
                   ghost c0: seq<PacketBytes>, ghost searched: bool, ghost base0: nat)
      returns (result: FeedResult, next: nat)
      requires Feeding(data, cursor) && cursor < |data|
      requires Handed(handler, st0, c0) && Taken(handler, c0)
      requires Searched(searched, base0, |stream| - |data|, false, |stream| - |data| + cursor)
      modifies this`pendingSize, this`initialOffset, this`initialSyncFailed, this`mode, this`starts
      modifies pending, handler`calls
      ensures Handed(handler, st0, c0)
      ensures Searched(searched, base0, |stream| - |data|, result == Stop, |stream| - |data| + next)
      ensures result != Stop ==> Feeding(data, next) && cursor <= next && Taken(handler, c0)
      ensures result == Continue ==>
                cursor < next || (cursor == next && old(mode) == Synced && mode == SeekingSync)
      ensures result == NeedMoreData ==> next == |data|
      ensures result == Stop ==> Halted(handler, c0)
    {
      hide IsTail, Buffered, Tracks, Foretold, HandedOver, AllAccepted;
      ghost var st1, c1 := starts, handler.calls;
      assert HandedOver(stream, st0, c0, st1, c1) && AllAccepted(handler.accept, c0, c1);
      hide Handed, Taken, Halted;
      ghost var searching, base1, pos1 := mode == InitialSync, initialOffset, |stream| - |data| + cursor;
      assert !initialSyncFailed && |data| <= |stream|;
      hide Feeding;
      result, next := FeedStep(data, cursor, handler);
      SearchGoesOn(searched, base0, |stream| - |data|, searching, base1, pos1,
                   result == Stop, |stream| - |data| + next);
      CallChain(handler, st0, c0, st1, c1);
    }

    lemma CallChain(handler: PacketHandler, st0: seq<nat>, c0: seq<PacketBytes>, st1: seq<nat>, c1: seq<PacketBytes>)
      requires HandedOver(stream, st0, c0, st1, c1) && AllAccepted(handler.accept, c0, c1)
      requires Handed(handler, st1, c1)
      ensures Handed(handler, st0, c0)
      ensures Taken(handler, c1) ==> Taken(handler, c0)
      ensures Halted(handler, c1) ==> Halted(handler, c0)
    {
      hide Tracks, FrameStream, Hopeless, Packets, AllAccepted, AcceptedBut, HandedOver;
      HandedChain(stream, st0, c0, st1, c1, starts, handler.calls);
      CallsChain(handler.accept, c0, c1, handler.calls);
    }

    /** What the calls made for the bytes of one call of `Feed` come to. */
    ghost predicate Offered(handler: PacketHandler, st0: seq<nat>, c0: seq<PacketBytes>, ok: bool)
      reads this`stream, this`initialSyncFailed, handler
    {
      && st0 <= FrameStream(stream).starts
      && Served(handler.accept, c0, Frame(stream)[|st0|..], handler.calls)
      && var refused := Refused(handler.accept, c0, handler.calls);
         if ok then !refused else initialSyncFailed != refused
    }

    lemma FeedStopped(st0: seq<nat>, c0: seq<PacketBytes>, handler: PacketHandler)
      requires Handed(handler, st0, c0) && Halted(handler, c0)
      ensures Offered(handler, st0, c0, false) && (initialSyncFailed ==> Hopeless(stream))
    {
      hide FrameStream, Hopeless, Frame, Packets, AllAccepted, AcceptedBut, Served, HandedOver, Refused;
      if initialSyncFailed {
        HopelessIsFinal(stream);
        ServedInFull(handler.accept, stream, st0, c0, starts, handler.calls);
      } else {
        ServedUpToRefusal(handler.accept, stream, st0, c0, starts, handler.calls);
      }
    }

    lemma FeedEnded(st0: seq<nat>, c0: seq<PacketBytes>, handler: PacketHandler)
      requires Valid() && Handed(handler, st0, c0) && Taken(handler, c0)
      ensures Offered(handler, st0, c0, true) && FrameStream(stream) == Frames(starts, mode) && !initialSyncFailed
    {
      hide Buffered, Tracks, FrameStream, Hopeless, Frame, Packets;
      hide AllAccepted, AcceptedBut, Served, HandedOver, Refused;
      ValidMeansFramed();
      ServedInFull(handler.accept, stream, st0, c0, starts, handler.calls);
    }

    /** Frames the bytes of one call. `iterations` counts the steps it takes.

        The calls made are the packets that `data` completes, up to the first one the
        handler refuses, however earlier input was cut into calls. Whether initial sync
        fails does depend on the cut: it does exactly if the stream is beyond hope and no
        two of its candidates, from the one the call finds, are late. */
    method Feed(data: seq<Byte>, handler: PacketHandler) returns (ok: bool, ghost iterations: nat)
      requires Valid()
      modifies this, pending, handler`calls
      ensures stream == old(stream) + data
      ensures Offered(handler, old(starts), old(handler.calls), ok)
      ensures ok ==> Valid() && FrameStream(stream) == Frames(starts, mode) && !initialSyncFailed
      ensures initialSyncFailed <==> old(mode) == InitialSync && data != [] && Hopeless(stream)
                                     && !LatePair(stream, old(initialOffset))
      ensures iterations <= 2 * |data|
      ensures old(mode) == InitialSync ==> SearchResult(ok, data, old(initialOffset))
      ensures old(mode) != InitialSync ==> mode != InitialSync
    {
      hide IsTail, Buffered, Tracks, FrameStream, Hopeless, Handed, Taken, Halted, Offered, LatePair;
      hide Foretold, SearchResult, Core, Verdict;
      iterations := 0;
      TakeInput(data);
      ghost var st0, c0, searched, base0 := starts, handler.calls, mode == InitialSync, initialOffset;
      NothingHanded(handler);
      SearchBegins(data);
      var cursor := 0;
      while cursor < |data|
        invariant Feeding(data, cursor) && stream == old(stream) + data
        invariant Handed(handler, st0, c0) && Taken(handler, c0)
        invariant Searched(searched, base0, |stream| - |data|, false, |stream| - |data| + cursor)
        invariant iterations <= 2 * cursor + if cursor < |data| && mode != Synced then 1 else 0
        decreases |data| - cursor, if mode == Synced then 1 else 0
      {
        var result;
        result, cursor := Advance(data, cursor, handler, st0, c0, searched, base0);
        iterations := iterations + 1;
        if result == Stop {
          FeedStopped(st0, c0, handler);
          if searched {
            SearchEnds(data, false, base0, |stream| - |data| + cursor);
          }
          return false, iterations;
        }
        if result == NeedMoreData {
          break;
        }
      }
      ok := true;
      if searched {
        SearchEnds(data, true, base0, |stream|);
      }
      FeedEnded(st0, c0, handler);
    }

    /** At the end of the input, sync that was never confirmed has failed. */
    method FinishAtEof()
      modifies this`initialSyncFailed
      ensures initialSyncFailed == (old(initialSyncFailed) || mode == InitialSync)
    {
      if mode == InitialSync {
        initialSyncFailed := true;
      }
    }

    lemma NothingServed(handler: PacketHandler)
      requires FrameStream(stream).starts == starts
      ensures |Frame(stream)| == |starts|
      ensures Served(handler.accept, handler.calls, Frame(stream)[|starts|..], handler.calls)
      ensures !Refused(handler.accept, handler.calls, handler.calls)
    {
      assert handler.calls + [] == handler.calls;
    }

    /** The bytes of one read are offered on top of what `read` bytes had offered. */
    lemma OneReadMore(read: seq<Byte>, n: nat, c0: seq<PacketBytes>, c1: seq<PacketBytes>, handler: PacketHandler)
      requires read <= stream && n <= |Frame(read)| <= |Frame(stream)|
      requires Served(handler.accept, c0, Frame(read)[n..], c1) && !Refused(handler.accept, c0, c1)
      requires Served(handler.accept, c1, Frame(stream)[|Frame(read)|..], handler.calls)
      ensures Served(handler.accept, c0, Frame(stream)[n..], handler.calls)
      ensures Refused(handler.accept, c0, handler.calls) <==> Refused(handler.accept, c1, handler.calls)
      ensures Refused(handler.accept, c0, handler.calls) ==> c0 + Frame(read)[n..] < handler.calls
    {
      hide Frame;
      OfferedSplits(read, stream, n);
      ServedUnrefused(handler.accept, c0, Frame(read)[n..], c1);
      ServedChain(handler.accept, c0, Frame(read)[n..], c1, Frame(stream)[|Frame(read)|..], handler.calls);
    }

    /** After the chunks `read` on top of `stream0`, none of which was refused: what the
        handler has been given, and where an initial search stands that was at `base0`. */
    ghost predicate Framed(read: seq<seq<Byte>>, stream0: seq<Byte>, base0: nat, handler: PacketHandler,
                           n: nat, c0: seq<PacketBytes>)
      reads this, pending, handler
    {
      && Valid() && !initialSyncFailed && stream == stream0 + Joined(read)
      && FrameStream(stream) == Frames(starts, mode) && n <= |starts| == |Frame(stream)|
      && Served(handler.accept, c0, Frame(stream)[n..], handler.calls)
      && !Refused(handler.accept, c0, handler.calls)
      && (mode == InitialSync ==> base0 <= |stream0| && initialOffset == Standing(stream0, base0, read) < PKT_SIZE)
    }

    lemma NothingFramed(handler: PacketHandler)
      requires Valid()
      ensures Framed([], stream, initialOffset, handler, |starts|, handler.calls)
    {
      hide Buffered, Tracks, FrameStream, Frame, Served, Refused;
      ValidMeansFramed();
      NothingServed(handler);
      assert stream + [] == stream;
    }

    /** Frames the bytes of one read. */
    method FeedChunk(chunk: seq<Byte>, handler: PacketHandler, ghost read: seq<seq<Byte>>, ghost stream0: seq<Byte>,
                     ghost base0: nat, ghost n: nat, ghost c0: seq<PacketBytes>)
      returns (ok: bool)
      requires Framed(read, stream0, base0, handler, n, c0) && chunk != []
      modifies this, pending, handler`calls
      ensures stream == old(stream) + chunk
      ensures if ok then Framed(read + [chunk], stream0, base0, handler, n, c0)
              else
                && stream == stream0 + Joined(read + [chunk])
                && ReadInTime(read + [chunk], stream0, base0, initialSyncFailed, handler.accept, n, c0, handler.calls)
                && initialSyncFailed != Refused(handler.accept, c0, handler.calls)
                && (initialSyncFailed ==> Hopeless(stream))
    {
      hide Buffered, Core, FrameStream, Frame, Served, Refused, Standing, Settled, Joined, Hopeless, LatePair;
      ghost var c1, before := handler.calls, stream;
      JoinedGrows(stream0, read, chunk);
      assert (read + [chunk])[..|read|] == read;
      if mode == InitialSync {
        StandingGrows(stream0, base0, read, chunk);
      }
      ghost var iterations;
      ok, iterations := Feed(chunk, handler);
      FrameGrows(before, stream);
      OneReadMore(before, n, c0, c1, handler);
    }

    /** Frames all the input of `reader`, whatever the sizes of its reads. */
    method FeedUntilEof(reader: ByteReader, handler: PacketHandler) returns (ok: bool)
      requires Valid()
      modifies this, pending, handler`calls, reader`remaining, reader`chunks
      ensures stream + reader.remaining == old(stream) + old(reader.remaining)
      ensures old(reader.chunks) < reader.chunks
      ensures var read := reader.chunks[|old(reader.chunks)|..];
              && stream == old(stream) + Joined(read)
              && ReadInTime(read, old(stream), old(initialOffset), initialSyncFailed, handler.accept,
                            |old(starts)|, old(handler.calls), handler.calls)
      ensures Refused(handler.accept, old(handler.calls), handler.calls) ==> !ok && !initialSyncFailed
      ensures initialSyncFailed ==> !ok && !EarlyRun(old(stream) + old(reader.remaining))
      ensures !ok && !initialSyncFailed ==>
                reader.fails || Refused(handler.accept, old(handler.calls), handler.calls)
      ensures initialSyncFailed && (reader.fails || reader.remaining != []) ==> Hopeless(stream)
      ensures ok ==> !reader.fails && reader.remaining == [] && EarlyRun(old(stream) + old(reader.remaining))
      ensures !initialSyncFailed && !Refused(handler.accept, old(handler.calls), handler.calls) ==>
                reader.remaining == []
      // so with a reader that does not fail and a handler that does not refuse:
      ensures !reader.fails && !Refused(handler.accept, old(handler.calls), handler.calls) ==>
                (ok <==> EarlyRun(old(stream) + old(reader.remaining))) && initialSyncFailed == !ok
    {
      hide Buffered, FrameStream, Frame, Served, Refused, Core, Standing, Joined, ReadInTime;
      var buffer := new Byte[CHUNK_SIZE];
      ghost var read, n, c0, stream0, base0 := [], |starts|, handler.calls, stream, initialOffset;
      NothingFramed(handler);
      while true
        invariant Framed(read, stream0, base0, handler, n, c0) && reader.chunks == old(reader.chunks) + read
        invariant stream + reader.remaining == old(stream) + old(reader.remaining)
        invariant fresh(buffer) && buffer.Length == CHUNK_SIZE
        decreases |reader.remaining|
      {
        var count := reader.Read(buffer);
        ghost var chunk := if count > 0 then buffer[..count] else [];
        assert reader.chunks[|old(reader.chunks)|..] == read + [chunk];
        if count < 0 {
          NothingRead(read, stream0, base0, false, handler.accept, n, c0, handler.calls);
          return false;
        }
        if count == 0 {
          LockedIffEarlyRun(stream);
          assert stream + [] == stream == old(stream) + old(reader.remaining);
          NothingRead(read, stream0, base0, mode == InitialSync, handler.accept, n, c0, handler.calls);
          FinishAtEof();
          return !initialSyncFailed;
        }
        ok := FeedChunk(buffer[..count], handler, read, stream0, base0, n, c0);
        read := read + [chunk];
        if !ok {
          if initialSyncFailed {
            HopelessOffersNothing(stream, stream + reader.remaining);
          }
          return;
        }
      }
    }
  }

  /** Reads and frames a whole input with a new framer.

      If reading it does not fail, the input and the handler alone decide the calls and
      the status, whatever the sizes of the reads. */
  method ReadAndFramePackets(reader: ByteReader, handler: PacketHandler) returns (status: ReadFrameStatus)
    modifies handler`calls, reader`remaining, reader`chunks
    ensures old(reader.chunks) < reader.chunks
    ensures var read := reader.chunks[|old(reader.chunks)|..];
            && Joined(read) + reader.remaining == old(reader.remaining)
            && ReadInTime(read, [], 0, status == NoSync, handler.accept, 0, old(handler.calls), handler.calls)
    ensures status == Ok ==> reader.remaining == []
    ensures Served(handler.accept, old(handler.calls), Frame(old(reader.remaining)), handler.calls)
    ensures !reader.fails ==>
              status == if !EarlyRun(old(reader.remaining)) then NoSync
                           else if Refused(handler.accept, old(handler.calls), handler.calls) then Failed
                           else Ok
    ensures reader.fails ==> status != Ok && (status == NoSync ==> !EarlyRun(old(reader.remaining)))
  {
    hide FrameStream, Frame, Served, Refused, EarlyRun, Hopeless, Tracks, Joined, ReadInTime;
    var framer := new PacketFramer();
    ghost var all, c0, read0 := reader.remaining, handler.calls, |reader.chunks|;
    var ok := framer.FeedUntilEof(reader, handler);
    ghost var read, rest, failed := reader.chunks[read0..], reader.remaining, framer.initialSyncFailed;
    assert [] + all == all && [] + Joined(read) == Joined(read);
    ServedByReads(read, rest, failed, handler.accept, c0, handler.calls);
    if framer.HasInitialSyncFailed() {
      return NoSync;
    }
    return if ok then Ok else Failed;
  }

  /** Whether initial sync has failed is not a function of the bytes fed: of two new
      framers fed the same 289 bytes, one at once and one in two calls, only the second
      reports a failure. */
  method TwoCutsDisagree() returns (atOnce: bool, inTwoCalls: bool)
    ensures !atOnce && inTwoCalls
  {
    hide TwoFalseCandidates, Hopeless, LatePair, Settled, Tracks, FrameStream;
    VerdictDependsOnTheCut();
    var s := TwoFalseCandidates(289);
    var first, second := s[..189], s[189..];
    assert first + second == s && [] + s == s && [] + first == first;
    var handler := new PacketHandler(_ => true);

    var whole := new PacketFramer();
    var ok, _ := whole.Feed(s, handler);
    atOnce := whole.HasInitialSyncFailed();

    var framer := new PacketFramer();
    var taken, _ := framer.Feed(first, handler);
    var more, _ := framer.Feed(second, handler);
    inTwoCalls := framer.HasInitialSyncFailed();
  }
}
