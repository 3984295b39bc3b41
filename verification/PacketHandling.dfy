/** The two parties a framer talks to: where bytes come from and where packets go. */
module PacketHandling {
  import opened TransportStream

  type PacketBytes = seq<Byte>

  /** Every call but the last was accepted, the calls made are the offered packets in
      order, and delivery stopped early only because the last call was refused. */
  ghost predicate Served(accept: seq<PacketBytes> -> bool, before: seq<PacketBytes>,
                         offered: seq<PacketBytes>, calls: seq<PacketBytes>) {
    && calls <= before + offered
    && AcceptedBut(accept, before, calls)
    && (calls == before + offered || Refused(accept, before, calls))
  }

  ghost predicate Refused(accept: seq<PacketBytes> -> bool, before: seq<PacketBytes>, calls: seq<PacketBytes>) {
    |before| < |calls| && !accept(calls)
  }

  ghost predicate AllAccepted(accept: seq<PacketBytes> -> bool, before: seq<PacketBytes>, calls: seq<PacketBytes>) {
    before <= calls && forall i | |before| < i <= |calls| :: accept(calls[..i])
  }

  ghost predicate AcceptedBut(accept: seq<PacketBytes> -> bool, before: seq<PacketBytes>, calls: seq<PacketBytes>) {
    before <= calls && forall i | |before| < i < |calls| :: accept(calls[..i])
  }

  lemma OneMoreCall(accept: seq<PacketBytes> -> bool, before: seq<PacketBytes>,
                    calls: seq<PacketBytes>, packet: PacketBytes)
    requires AllAccepted(accept, before, calls)
    ensures AcceptedBut(accept, before, calls + [packet])
    ensures accept(calls + [packet]) ==> AllAccepted(accept, before, calls + [packet])
  {
    var next := calls + [packet];
    assert next[..|next|] == next;
    forall i | |before| < i <= |calls| ensures accept(next[..i]) {
      assert next[..i] == calls[..i];
    }
  }

  lemma CallsChain(accept: seq<PacketBytes> -> bool, before: seq<PacketBytes>,
                   middle: seq<PacketBytes>, after: seq<PacketBytes>)
    requires AllAccepted(accept, before, middle)
    ensures before <= middle
    ensures AllAccepted(accept, middle, after) ==> AllAccepted(accept, before, after)
    ensures AcceptedBut(accept, middle, after) ==> AcceptedBut(accept, before, after)
  {
    if middle <= after {
      forall i | |before| < i <= |middle| ensures accept(after[..i]) {
        assert after[..i] == middle[..i];
      }
    }
  }

  lemma ServedUnrefused(accept: seq<PacketBytes> -> bool, before: seq<PacketBytes>,
                        offered: seq<PacketBytes>, calls: seq<PacketBytes>)
    requires Served(accept, before, offered, calls) && !Refused(accept, before, calls)
    ensures calls == before + offered && AllAccepted(accept, before, calls)
  {
    assert calls[..|calls|] == calls;
  }

  /** Offering packets in two instalments is offering them at once. */
  lemma ServedChain(accept: seq<PacketBytes> -> bool, before: seq<PacketBytes>, first: seq<PacketBytes>,
                    middle: seq<PacketBytes>, second: seq<PacketBytes>, calls: seq<PacketBytes>)
    requires Served(accept, before, first, middle) && !Refused(accept, before, middle)
    requires Served(accept, middle, second, calls)
    ensures Served(accept, before, first + second, calls)
    ensures Refused(accept, before, calls) <==> Refused(accept, middle, calls)
  {
    ServedUnrefused(accept, before, first, middle);
    CallsChain(accept, before, middle, calls);
    assert before + first + second == before + (first + second);
    if |middle| == |calls| {
      assert calls == middle && (|before| < |middle| ==> accept(middle[..|middle|]));
      assert middle[..|middle|] == middle;
    }
  }

  /** After a refusal it makes no difference what more would have been offered. */
  lemma ServedMore(accept: seq<PacketBytes> -> bool, before: seq<PacketBytes>,
                   offered: seq<PacketBytes>, more: seq<PacketBytes>, calls: seq<PacketBytes>)
    requires Served(accept, before, offered, calls) && Refused(accept, before, calls) && offered <= more
    ensures Served(accept, before, more, calls)
  {
  }

  lemma AllAcceptedOfNone(accept: seq<PacketBytes> -> bool, calls: seq<PacketBytes>)
    ensures AllAccepted(accept, calls, calls)
  {
  }

  /** `Served` leaves no choice: the handler and the packets offered fix the calls. */
  lemma ServedIsDetermined(accept: seq<PacketBytes> -> bool, before: seq<PacketBytes>,
                           offered: seq<PacketBytes>, a: seq<PacketBytes>, b: seq<PacketBytes>)
    requires Served(accept, before, offered, a) && Served(accept, before, offered, b)
    ensures a == b
  {
    assert a == (before + offered)[..|a|] && b == (before + offered)[..|b|];
    if |a| < |b| {
      assert b[..|a|] == a;
    } else if |b| < |a| {
      assert a[..|b|] == b;
    }
  }

  /** The packet callback. Its answer may depend on all the calls made to it. */
  class PacketHandler {
    const accept: seq<PacketBytes> -> bool
    var calls: seq<PacketBytes>

    constructor (accept: seq<PacketBytes> -> bool)
      ensures this.accept == accept && calls == []
    {
      this.accept := accept;
      calls := [];
    }

    method OnPacket(packet: PacketBytes) returns (ok: bool)
      modifies this`calls
      ensures calls == old(calls) + [packet] && ok == accept(calls)
    {
      calls := calls + [packet];
      ok := accept(calls);
    }
  }

  /** The bytes of some chunks, one after the other. */
  function Joined(chunks: seq<seq<Byte>>): seq<Byte> {
    if chunks == [] then [] else Joined(chunks[..|chunks| - 1]) + chunks[|chunks| - 1]
  }

  lemma JoinedGrows(s: seq<Byte>, chunks: seq<seq<Byte>>, chunk: seq<Byte>)
    ensures s + Joined(chunks + [chunk]) == s + Joined(chunks) + chunk
  {
    var all := chunks + [chunk];
    assert all[..|all| - 1] == chunks && all[|all| - 1] == chunk;
    assert Joined(all) == Joined(chunks) + chunk;
    hide Joined;
    JoinThree(s, Joined(chunks), chunk);
  }

  lemma JoinThree(a: seq<Byte>, b: seq<Byte>, c: seq<Byte>)
    ensures a + (b + c) == a + b + c
  {
  }

  /** A source of bytes. It hands out what it holds in reads of any size, then reports
      the end of its input or an error. */
  class ByteReader {
    var remaining: seq<Byte>
    const fails: bool
    /** What each read so far has handed out; nothing at the end or on an error. */
    ghost var chunks: seq<seq<Byte>>

    constructor (bytes: seq<Byte>, fails: bool)
      ensures remaining == bytes && this.fails == fails && chunks == []
    {
      remaining := bytes;
      this.fails := fails;
      chunks := [];
    }

    method Read(buffer: array<Byte>) returns (count: int)
      requires buffer.Length > 0
      modifies this`remaining, this`chunks, buffer
      ensures count <= buffer.Length
      ensures chunks == old(chunks) + [if count > 0 then buffer[..count] else []]
      ensures count > 0 ==> old(remaining) == buffer[..count] + remaining
      ensures count <= 0 ==> old(remaining) == [] == remaining && (count < 0 <==> fails)
    {
      if remaining == [] {
        chunks := chunks + [[]];
        return if fails then -1 else 0;
      }
      count :| 1 <= count <= buffer.Length && count <= |remaining|;
      var bytes := remaining[..count];
      forall i | 0 <= i < count {
        buffer[i] := bytes[i];
      }
      remaining := remaining[count..];
      chunks := chunks + [bytes];
      assert buffer[..count] == bytes;
    }
  }
}
