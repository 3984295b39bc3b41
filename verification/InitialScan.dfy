/** Where the search for initial sync stands after a call, as a function of the stream
    and of where the call found it.

    The search checks its candidate only when bytes arrive, and after dropping one it
    does not check the next before more bytes arrive. So where it stands, and when it
    gives up, depends on how the input is cut into calls; the packets do not.

    `CandidateAfter` follows the search step by step; `Settled` says of the whole stream
    where it ends, and `Standing` where it stands after any number of calls. */
module InitialScan {
  import opened TransportStream
  import opened Framing
  import opened FramerRelation
  import opened PacketHandling

  function Min(a: nat, b: nat): nat {
    if a < b then a else b
  }

  /** First sync byte of `s` at or after `from`, the length of `s` if there is none. */
  function FindSync(s: seq<Byte>, from: nat): (r: nat)
    requires from <= |s|
    ensures from <= r <= |s|
    ensures forall i | from <= i < r :: s[i] != SYNC_BYTE
    ensures r < |s| ==> s[r] == SYNC_BYTE
    decreases |s| - from
  {
    if from == |s| || s[from] == SYNC_BYTE then from else FindSync(s, from + 1)
  }

  lemma {:induction false} FindSyncIs(s: seq<Byte>, from: nat, r: nat)
    requires from <= r <= |s| && (r < |s| ==> s[r] == SYNC_BYTE)
    requires forall i | from <= i < r :: s[i] != SYNC_BYTE
    ensures FindSync(s, from) == r
    decreases r - from
  {
    if from < r {
      FindSyncIs(s, from + 1, r);
    }
  }

  lemma FindSyncInSuffix(s: seq<Byte>, data: seq<Byte>, from: nat)
    requires |data| <= |s| && data == s[|s| - |data|..] && from <= |data|
    ensures FindSync(s, |s| - |data| + from) == |s| - |data| + FindSync(data, from)
  {
    var offset, r := |s| - |data|, FindSync(data, from);
    forall i | offset + from <= i < offset + r ensures s[i] != SYNC_BYTE {
      assert s[i] == data[i - offset];
    }
    assert r < |data| ==> s[offset + r] == data[r];
    FindSyncIs(s, offset + from, offset + r);
  }

  lemma FindSyncInWindow(s: seq<Byte>, base: nat, end: nat)
    requires base < end <= |s|
    ensures FindSync(s[..end], base + 1) == base + FindSync(s[base..end], 1)
  {
    var window := s[base..end];
    assert window == s[..end][base..];
    FindSyncInSuffix(s[..end], window, 1);
  }

  /** The candidate to probe: the old one, or the next sync byte if nothing is buffered. */
  function ScanStart(s: seq<Byte>, base: nat, pos: nat): nat
    requires base <= pos <= |s|
  {
    if base == pos then FindSync(s, pos) else base
  }

  /** The candidate left by a call that received the bytes of `s` from `pos` on, when
      `base` was the candidate before. From `PKT_SIZE` on, initial sync has failed. */
  function CandidateAfter(s: seq<Byte>, base: nat, pos: nat): nat
    requires base <= pos < base + PROBE_SIZE && pos <= |s|
    decreases |s| - pos
  {
    if pos == |s| then base
    else
      var start := ScanStart(s, base, pos);
      if start >= PKT_SIZE || start == |s| then start
      else
        var end := Min(start + PROBE_SIZE, |s|);
        if !Refuted(s[..end], start) then start
        else
          var next := FindSync(s[..end], start + 1);
          if next >= PKT_SIZE then next else CandidateAfter(s, next, end)
  }

  ghost predicate InWindow(s: seq<Byte>, base: nat, pos: nat) {
    base <= pos < base + PROBE_SIZE && pos <= |s|
  }

  /** A step that leaves the search at `base1`, or fails it, or ends it by locking, does
      what `CandidateAfter` foretells from where the search stood at `base0`. */
  ghost predicate Foretold(s: seq<Byte>, base0: nat, pos0: nat, failed: bool, searching: bool, base1: nat, pos1: nat) {
    && InWindow(s, base0, pos0)
    && var target := CandidateAfter(s, base0, pos0);
       if failed then target >= PKT_SIZE
       else if searching then InWindow(s, base1, pos1) && target == CandidateAfter(s, base1, pos1)
       else target < PKT_SIZE
  }

  lemma RefutedInWindow(s: seq<Byte>, base: nat, end: nat)
    requires base <= end <= |s|
    ensures Refuted(s[base..end], 0) == Refuted(s[..end], base)
  {
    var window := s[base..end];
    assert forall k | 0 <= k < |window| :: window[k] == s[..end][base + k];
  }

  /** A step that finds no window to check: it ran out of input, or of offsets. */
  lemma ForetoldNoWindow(s: seq<Byte>, base0: nat, pos0: nat, failed: bool, searching: bool, base1: nat, pos1: nat)
    requires InWindow(s, base0, pos0) && pos0 < |s|
    requires base1 == ScanStart(s, base0, pos0)
    requires if failed then base1 >= PKT_SIZE else searching && base1 == pos1 == |s|
    ensures Foretold(s, base0, pos0, failed, searching, base1, pos1)
  {
  }

  /** A step that checks the window from `start` to `end`: a refuted candidate gives way
      to the next sync byte, and otherwise the search waits or is over. */
  lemma ForetoldWindow(s: seq<Byte>, base0: nat, pos0: nat, start: nat, end: nat,
                       failed: bool, searching: bool, base1: nat)
    requires InWindow(s, base0, pos0) && pos0 < |s|
    requires start == ScanStart(s, base0, pos0) && start < PKT_SIZE && start < |s|
    requires end == Min(start + PROBE_SIZE, |s|)
    requires if Refuted(s[start..end], 0) then
               && base1 == FindSync(s[..end], start + 1)
               && (if failed then base1 >= PKT_SIZE else base1 < PKT_SIZE && searching)
             else
               !failed && (searching ==> base1 == start && end == |s| < start + PROBE_SIZE)
    ensures Foretold(s, base0, pos0, failed, searching, base1, end)
  {
    hide Refuted, FindSync;
    RefutedInWindow(s, start, end);
  }

  lemma ForetoldStart(s: seq<Byte>, base: nat, pos: nat, searching: bool)
    requires InWindow(s, base, pos) && searching
    ensures Foretold(s, base, pos, false, searching, base, pos)
  {
  }

  lemma ForetoldChain(s: seq<Byte>, base0: nat, pos0: nat, base1: nat, pos1: nat,
                      failed: bool, searching: bool, base2: nat, pos2: nat)
    requires Foretold(s, base0, pos0, false, true, base1, pos1)
    requires Foretold(s, base1, pos1, failed, searching, base2, pos2)
    ensures Foretold(s, base0, pos0, failed, searching, base2, pos2)
  {
    hide CandidateAfter;
  }

  /** Once the search is over nothing more is foretold of it. */
  lemma ForetoldOver(s: seq<Byte>, base0: nat, pos0: nat, base1: nat, pos1: nat, base2: nat, pos2: nat)
    requires Foretold(s, base0, pos0, false, false, base1, pos1)
    ensures Foretold(s, base0, pos0, false, false, base2, pos2)
  {
  }

  lemma ForetoldEnd(s: seq<Byte>, base0: nat, pos0: nat, failed: bool, searching: bool, base1: nat, pos1: nat)
    requires Foretold(s, base0, pos0, failed, searching, base1, pos1)
    requires !failed && searching ==> base1 < PKT_SIZE && pos1 == |s|
    ensures InWindow(s, base0, pos0)
    ensures failed <==> CandidateAfter(s, base0, pos0) >= PKT_SIZE
    ensures !failed && searching ==> base1 == CandidateAfter(s, base0, pos0)
  {
  }

  // ---------- The verdict, without the search ----------

  /** Two possible candidates from `base` on, of which the first still waits for bytes of
      its probe when the input ends: the search gets to the second, but not past it. */
  ghost predicate LatePair(s: seq<Byte>, base: nat) {
    exists c1: nat, c2: nat :: IsLatePair(s, base, c1, c2)
  }

  ghost predicate IsLatePair(s: seq<Byte>, base: nat, c1: nat, c2: nat) {
    && base <= c1 < c2 < PKT_SIZE && c2 < |s|
    && s[c1] == SYNC_BYTE && s[c2] == SYNC_BYTE && |s| <= c1 + PROBE_SIZE
  }

  ghost predicate AllRefuted(s: seq<Byte>, from: nat) {
    forall q: nat | from <= q < PKT_SIZE :: Refuted(s, q)
  }

  /** Offsets without a sync byte make no difference to the verdict. */
  lemma NoCandidates(s: seq<Byte>, from: nat, to: nat)
    requires from <= to <= |s| && forall i | from <= i < to :: s[i] != SYNC_BYTE
    ensures AllRefuted(s, from) <==> AllRefuted(s, to)
    ensures LatePair(s, from) <==> LatePair(s, to)
  {
    hide Refuted;
    forall q: nat | from <= q < to ensures Refuted(s, q) {
      NoSyncByte(s, q);
    }
    forall c1: nat, c2: nat ensures IsLatePair(s, from, c1, c2) <==> IsLatePair(s, to, c1, c2) {}
  }

  lemma NoSyncByte(s: seq<Byte>, q: nat)
    requires q < |s| && s[q] != SYNC_BYTE
    ensures Refuted(s, q)
  {
  }

  /** Nor does a refuted candidate, if its probe was complete before the input ended. */
  lemma RefutedCandidate(s: seq<Byte>, start: nat, next: nat)
    requires start < next <= |s| && Refuted(s, start) && forall i | start < i < next :: s[i] != SYNC_BYTE
    ensures AllRefuted(s, start) <==> AllRefuted(s, next)
    ensures start + PROBE_SIZE < |s| || PKT_SIZE <= next ==> (LatePair(s, start) <==> LatePair(s, next))
  {
    hide Refuted, LatePair;
    NoCandidates(s, start + 1, next);
    if start + PROBE_SIZE < |s| {
      PairsBeyond(s, start);
    } else if PKT_SIZE <= next {
      NoPairIn(s, start, next);
      NoPairIn(s, next, next);
    }
  }

  lemma PairsBeyond(s: seq<Byte>, start: nat)
    requires start + PROBE_SIZE < |s|
    ensures LatePair(s, start) <==> LatePair(s, start + 1)
  {
    var next := start + 1;
    forall c1: nat, c2: nat ensures IsLatePair(s, start, c1, c2) <==> IsLatePair(s, next, c1, c2) {}
  }

  lemma NoPairIn(s: seq<Byte>, start: nat, next: nat)
    requires start <= next <= |s| && PKT_SIZE <= next && forall i | start < i < next :: s[i] != SYNC_BYTE
    ensures !LatePair(s, start)
  {
  }

  /** What one round of `CandidateAfter` comes to, by the bytes of the whole stream. */
  lemma OneRound(s: seq<Byte>, base: nat, pos: nat, start: nat)
    requires InWindow(s, base, pos) && pos < |s| && start == ScanStart(s, base, pos)
    ensures start >= PKT_SIZE || start == |s| ==> CandidateAfter(s, base, pos) == start
    ensures start < PKT_SIZE && start < |s| ==>
              var end := Min(start + PROBE_SIZE, |s|);
              var next := FindSync(s[..end], start + 1);
              CandidateAfter(s, base, pos) ==
              if !Refuted(s, start) then start
              else if next >= PKT_SIZE then next else CandidateAfter(s, next, end)
  {
    hide FindSync;
    if start < PKT_SIZE && start < |s| {
      var end := Min(start + PROBE_SIZE, |s|);
      assert Refuted(s[..end], start) == Refuted(s, start);
    }
  }

  /** A call fails the search exactly when every offset from its candidate on has a byte
      against it and there is no late pair. */
  lemma {:induction false} VerdictIff(s: seq<Byte>, base: nat, pos: nat)
    requires InWindow(s, base, pos) && base < PKT_SIZE && pos < |s|
    requires base < pos ==> s[base] == SYNC_BYTE
    ensures CandidateAfter(s, base, pos) >= PKT_SIZE <==> AllRefuted(s, base) && !LatePair(s, base)
    decreases |s| - pos
  {
    hide FindSync, Refuted, AllRefuted, LatePair, CandidateAfter;
    var start := ScanStart(s, base, pos);
    NoCandidates(s, base, start);
    OneRound(s, base, pos, start);
    if start >= PKT_SIZE {
      NothingLeft(s, start);
    } else if start == |s| || !Refuted(s, start) {
      Unrefuted(s, start);
    } else {
      var end := Min(start + PROBE_SIZE, |s|);
      var next := FindSync(s[..end], start + 1);
      RefutedCandidate(s, start, next);
      if next >= PKT_SIZE {
        NothingLeft(s, next);
      } else if end < |s| {
        VerdictIff(s, next, end);
      } else {
        InputEnds(s, start, next);
      }
    }
  }

  lemma NothingLeft(s: seq<Byte>, from: nat)
    requires from >= PKT_SIZE
    ensures AllRefuted(s, from) && !LatePair(s, from)
  {
  }

  lemma Unrefuted(s: seq<Byte>, q: nat)
    requires q < PKT_SIZE && (q < |s| ==> !Refuted(s, q))
    ensures !AllRefuted(s, q)
  {
  }

  /** The input ends within the probe of a refuted candidate. */
  lemma InputEnds(s: seq<Byte>, start: nat, next: nat)
    requires start < next < PKT_SIZE && next <= |s| <= start + PROBE_SIZE
    requires start < |s| && s[start] == SYNC_BYTE && (next < |s| ==> s[next] == SYNC_BYTE)
    ensures CandidateAfter(s, next, |s|) < PKT_SIZE
    ensures AllRefuted(s, next) ==> LatePair(s, start)
  {
    assert next < |s| ==> IsLatePair(s, start, start, next);
    assert !Refuted(s, |s|);
  }

  /** For a framer that has searched up to `base`: a call fails exactly if initial sync is
      beyond hope, unless two candidates are late. */
  lemma FailsIff(s: seq<Byte>, base: nat, pos: nat)
    requires Tracks(InitialSync, s, base, []) && InWindow(s, base, pos) && base < PKT_SIZE && pos < |s|
    requires base < pos ==> s[base] == SYNC_BYTE
    ensures CandidateAfter(s, base, pos) >= PKT_SIZE <==> Hopeless(s) && !LatePair(s, base)
  {
    hide Tracks, Refuted, LatePair, CandidateAfter;
    VerdictIff(s, base, pos);
    SkippedWereRefuted(s, base);
  }

  lemma NothingNew(s: seq<Byte>, base: nat)
    requires InWindow(s, base, |s|)
    ensures CandidateAfter(s, base, |s|) == base
  {
  }

  // ---------- Where the search stands, without the search ----------

  /** The search cannot get past a candidate before it has all of its probe, and a byte
      against it; nor past the end of the input. */
  predicate Open(s: seq<Byte>, q: nat)
    requires q <= |s|
  {
    q == |s| || (s[q] == SYNC_BYTE && !(Refuted(s, q) && q + PROBE_SIZE < |s|))
  }

  function FirstOpen(s: seq<Byte>, from: nat): (c: nat)
    requires from <= |s|
    ensures from <= c <= |s| && Open(s, c) && forall q | from <= q < c :: !Open(s, q)
    decreases |s| - from
  {
    if Open(s, from) then from else FirstOpen(s, from + 1)
  }

  /** The candidate a search from `base` comes to when it has seen all of `s`: the first
      open one or, if that one is refuted, the one after it. */
  function Settled(s: seq<Byte>, base: nat): (r: nat)
    requires base <= |s|
    ensures base <= r <= |s|
  {
    var c := FirstOpen(s, base);
    if c < |s| && Refuted(s, c) then FindSync(s, c + 1) else c
  }

  /** Candidates that are not open make no difference. */
  lemma {:induction false} SettledSkips(s: seq<Byte>, from: nat, to: nat)
    requires from <= to <= |s| && forall q | from <= q < to :: !Open(s, q)
    ensures Settled(s, from) == Settled(s, to)
    decreases |s| - from
  {
    hide Open, Refuted, FindSync;
    if from < to {
      SettledSkips(s, from + 1, to);
    }
  }

  lemma NotOpen(s: seq<Byte>, q: nat)
    requires q < |s| && (s[q] != SYNC_BYTE || (Refuted(s, q) && q + PROBE_SIZE < |s|))
    ensures !Open(s, q)
  {
  }

  /** A candidate that the search cannot get past: it stays, or the next one follows. */
  lemma SettledAt(s: seq<Byte>, start: nat)
    requires start <= |s| && Open(s, start)
    ensures Settled(s, start) == if start < |s| && Refuted(s, start) then FindSync(s, start + 1) else start
  {
  }

  /** A call that gets any bytes leaves the search at the settled candidate, or fails it
      if that one lies beyond the bound. */
  lemma {:induction false} CandidateSettles(s: seq<Byte>, base: nat, pos: nat)
    requires InWindow(s, base, pos) && base < PKT_SIZE && pos < |s|
    requires base < pos ==> s[base] == SYNC_BYTE
    ensures var r := CandidateAfter(s, base, pos);
            if r >= PKT_SIZE then Settled(s, base) >= PKT_SIZE else r == Settled(s, base)
    decreases |s| - pos
  {
    hide FindSync, Refuted, CandidateAfter, Settled, Open;
    var start := ScanStart(s, base, pos);
    forall q | base <= q < start ensures !Open(s, q) {
      NotOpen(s, q);
    }
    SettledSkips(s, base, start);
    OneRound(s, base, pos, start);
    if start < PKT_SIZE {
      if start == |s| || !Refuted(s, start) || |s| <= start + PROBE_SIZE {
        IsOpen(s, start);
        SettledAt(s, start);
        if start < |s| && Refuted(s, start) {
          assert s[..|s|] == s;
          var next := FindSync(s, start + 1);
          if next < PKT_SIZE {
            NothingNew(s, next);
          }
        }
      } else {
        var end := start + PROBE_SIZE;
        var next := FindSync(s[..end], start + 1);
        forall q | start <= q < next ensures !Open(s, q) {
          NotOpen(s, q);
        }
        SettledSkips(s, start, next);
        if next < PKT_SIZE {
          CandidateSettles(s, next, end);
        }
      }
    }
  }

  lemma IsOpen(s: seq<Byte>, start: nat)
    requires start <= |s| && (start < |s| ==> s[start] == SYNC_BYTE)
    requires start == |s| || !Refuted(s, start) || |s| <= start + PROBE_SIZE
    ensures Open(s, start)
  {
  }

  /** Where the search stands after calls that each received one of `chunks`, when it
      stood at `base` after the bytes `before`. From `PKT_SIZE` on, it has failed. */
  function Standing(before: seq<Byte>, base: nat, chunks: seq<seq<Byte>>): (r: nat)
    requires base <= |before|
    ensures r <= |before + Joined(chunks)|
    decreases |chunks|
  {
    if chunks == [] then base
    else
      var last := |chunks| - 1;
      var r := Standing(before, base, chunks[..last]);
      if r >= PKT_SIZE || chunks[last] == [] then r else Settled(before + Joined(chunks), r)
  }

  lemma StandingGrows(before: seq<Byte>, base: nat, chunks: seq<seq<Byte>>, chunk: seq<Byte>)
    requires base <= |before| && Standing(before, base, chunks) < PKT_SIZE && chunk != []
    ensures Standing(before, base, chunks) <= |before + Joined(chunks) + chunk|
    ensures Standing(before, base, chunks + [chunk])
            == Settled(before + Joined(chunks) + chunk, Standing(before, base, chunks))
  {
    hide Settled, Joined;
    assert (chunks + [chunk])[..|chunks|] == chunks;
    JoinedGrows(before, chunks, chunk);
  }

  /** One round of the search: a refuted candidate gives way to the next sync byte. */
  lemma OneRefutation(s: seq<Byte>, base: nat, pos: nat, k: nat, next: nat)
    requires InWindow(s, base, pos) && pos < |s| && base < PKT_SIZE && s[base] == SYNC_BYTE
    requires |s| <= base + PROBE_SIZE && base < k < |s|
    requires k == base + PKT_SIZE && s[k] != SYNC_BYTE
    requires base < next <= |s| && (next < |s| ==> s[next] == SYNC_BYTE)
    requires forall i | base < i < next :: s[i] != SYNC_BYTE
    ensures CandidateAfter(s, base, pos) == next
  {
    hide FindSync;
    assert s[..|s|] == s;
    FindSyncIs(s, base, base);
    FindSyncIs(s, base + 1, next);
    assert Refuted(s, base);
  }

  /** A stream whose only sync bytes, at offsets 0 and 100, are both refuted. */
  function TwoFalseCandidates(n: nat): (s: seq<Byte>)
    ensures |s| == n
    ensures forall i | 0 <= i < n :: s[i] == if i == 0 || i == 100 then SYNC_BYTE else 0
  {
    seq(n, i => if i == 0 || i == 100 then SYNC_BYTE else 0)
  }

  /** These 289 bytes are beyond hope, but fed at once, or the first 189 of them, their
      candidates are a late pair. Once the search stands at the second one, they are not. */
  lemma VerdictDependsOnTheCut()
    ensures var s := TwoFalseCandidates(289);
            && Hopeless(s) && LatePair(s, 0) && LatePair(s[..189], 0)
            && FrameStream(s[..189]).mode == InitialSync
            && Settled(s[..189], 0) == 100 && !LatePair(s, 100)
  {
    hide CandidateAfter, Settled, TwoFalseCandidates;
    var s := TwoFalseCandidates(289);
    OneRefutation(s[..189], 0, 0, 188, 100);
    CandidateSettles(s[..189], 0, 0);
    assert IsLatePair(s, 0, 0, 100) && IsLatePair(s[..189], 0, 0, 100);
  }
}
