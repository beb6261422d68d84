/** `_process` and `_acquireSync`: how the driver cuts packets out of the
    serial byte stream, and the retry it schedules when a packet fails to
    decode. */
module Reassembler {
  import opened Wrappers
  import opened Bytes
  import opened FrameCodec
  import opened Interpreter
  import opened Controller

  /** `_acquireSync`: the buffer from its first STX on, or empty when it holds
      no STX. */
  function AcquireSync(data: seq<byte>): (r: seq<byte>)
    ensures |r| <= |data| && r == data[|data| - |r|..]
    ensures forall i :: 0 <= i < |data| - |r| ==> data[i] != STX
    ensures |r| > 0 ==> r[0] == STX
  {
    if |data| == 0 then []
    else if data[0] == STX then data
    else
      var r := AcquireSync(data[1..]);
      assert data[1..][|data| - 1 - |r|..] == data[|data| - |r|..];
      r
  }

  /** Garbage without STX in front of the stream is dropped entirely. */
  lemma {:induction false} AcquireSyncSkipsGarbage(garbage: seq<byte>, rest: seq<byte>)
    requires STX !in garbage
    ensures AcquireSync(garbage + rest) == AcquireSync(rest)
    decreases |garbage|
  {
    if |garbage| == 0 {
      assert garbage + rest == rest;
    } else {
      assert garbage[0] in garbage;
      assert (garbage + rest)[0] == garbage[0] != STX;
      assert (garbage + rest)[1..] == garbage[1..] + rest;
      assert forall x :: x in garbage[1..] ==> x in garbage;
      AcquireSyncSkipsGarbage(garbage[1..], rest);
    }
  }

  /** A buffer that starts at an STX is already in sync. */
  lemma AcquireSyncIdempotent(data: seq<byte>)
    ensures AcquireSync(AcquireSync(data)) == AcquireSync(data)
  {
  }

  /** One call of `_process(data)`: its output, and `Some(next)` when the
      packet it cut out failed to decode and it scheduled `_process(next)`. */
  datatype Turn = Turn(out: Output, retry: Option<seq<byte>>)

  /** The bytes a packet of declared size `size` takes from the buffer. As
      written this is `size` itself; the corrected reassembler takes at
      least one byte, so that a declared size of zero cannot stall it. */
  function TakeCount(size: nat, atLeastOne: bool): (n: nat)
    ensures size > 0 ==> n == size
    ensures size == 0 ==> (n == 1 <==> atLeastOne) && (n == 0 <==> !atLeastOne)
  {
    if atLeastOne && size == 0 then 1 else size
  }

  /** What the synced buffer holds: not yet a whole packet, or a packet
      followed by the rest of the buffer. */
  datatype Extraction = Incomplete | Packet(packet: seq<byte>, rest: seq<byte>)

  /** The middle of `_process`: wait for the size byte, then for all the
      bytes the size byte announces; then split the packet off the front. */
  function Extract(buf: seq<byte>, atLeastOne: bool): (e: Extraction)
    ensures e.Incomplete? <==> |buf| < 2 || |buf| < buf[1] as int
    ensures e.Packet? ==>
              && e.packet + e.rest == buf
              && |e.packet| == TakeCount(buf[1] as int, atLeastOne)
  {
    if |buf| < 2 || |buf| < buf[1] as int then Incomplete
    else
      var take := TakeCount(buf[1] as int, atLeastOne);
      assert buf[..take] + buf[take..] == buf;
      Packet(buf[..take], buf[take..])
  }

  /** `_process(data)`: a lone ENQ on an empty buffer is answered with a
      poll; otherwise the data is appended to the buffer, which is resynced
      on an STX, and a whole packet, once there is one, is cut off the
      buffer and delivered. `atLeastOne` chooses between the packet size as
      written and the corrected one. */
  function ProcessOnce(d: Driver, data: seq<byte>, atLeastOne: bool): (t: Turn)
    ensures |d.buf| == 0 && data == [ENQ] ==> t == Turn(Send(d, Poll), None)
    ensures !(|d.buf| == 0 && data == [ENQ]) ==>
              var synced := AcquireSync(d.buf + data);
              match Extract(synced, atLeastOne)
              case Incomplete => t == Turn(Output(d.(buf := synced), [], []), None)
              case Packet(_, rest) => t.out.driver.buf == rest
    ensures t.out.driver.mask == d.mask && t.out.driver.fiatCode == d.fiatCode
    ensures forall b :: Read(b) in t.out.events ==> Some(b.code) == d.fiatCode
    ensures t.retry.Some? ==>
              && t.retry.value == Tail(data)
              && t.out == Output(d.(buf := t.out.driver.buf), [], [])
  {
    if |d.buf| == 0 && data == [ENQ] then Turn(Send(d, Poll), None)
    else Settle(d.(buf := AcquireSync(d.buf + data)), data, atLeastOne)
  }

  /** The rest of `_process(data)` once the buffer is in sync: wait, or cut
      the packet off and deliver it. */
  function Settle(d: Driver, data: seq<byte>, atLeastOne: bool): (t: Turn)
    ensures Extract(d.buf, atLeastOne).Incomplete? ==> t == Turn(Output(d, [], []), None)
    ensures Extract(d.buf, atLeastOne).Packet? ==> t.out.driver.buf == Extract(d.buf, atLeastOne).rest
    ensures t.out.driver.mask == d.mask && t.out.driver.fiatCode == d.fiatCode
    ensures forall b :: Read(b) in t.out.events ==> Some(b.code) == d.fiatCode
    ensures t.retry.Some? ==>
              && t.retry.value == Tail(data)
              && t.out == Output(d.(buf := t.out.driver.buf), [], [])
  {
    match Extract(d.buf, atLeastOne)
    case Incomplete => Turn(Output(d, [], []), None)
    case Packet(packet, rest) => Deliver(d.(buf := rest), packet, data)
  }

  /** What a settled pass does, as opposed to what it retries, does not
      depend on the data that was appended. */
  lemma SettleIgnoresData(d: Driver, data1: seq<byte>, data2: seq<byte>, atLeastOne: bool)
    ensures Settle(d, data1, atLeastOne).out == Settle(d, data2, atLeastOne).out
  {
  }

  /** The `try` around `_parse` in `_process(data)`: a packet that decodes
      gives `_parse`'s output; one that throws changes nothing and schedules
      `_process` on the data minus its first byte. The buffer is never
      touched here. */
  function Deliver(d: Driver, packet: seq<byte>, data: seq<byte>): (t: Turn)
    ensures t.out.driver.buf == d.buf
    ensures t.out.driver.mask == d.mask && t.out.driver.fiatCode == d.fiatCode
    ensures forall b :: Read(b) in t.out.events ==> Some(b.code) == d.fiatCode
    ensures t.retry.None? <==> Parse(d, packet).Success?
    ensures t.retry.Some? ==> t.retry.value == Tail(data) && t.out == Output(d, [], [])
  {
    match Parse(d, packet)
    case Success(o) => Turn(o, None)
    case Failure(_) => Turn(Output(d, [], []), Some(Tail(data)))
  }

  /** The corrected `_process`: every packet it cuts out is at least one byte
      long, so a failed decode always consumes input. */
  function Pass(d: Driver, data: seq<byte>): (t: Turn)
    ensures t.retry.Some? ==>
              && t.retry.value == Tail(data)
              && |t.out.driver.buf| < |d.buf| + |data|
              && t.out == Output(d.(buf := t.out.driver.buf), [], [])
    ensures t.out.driver.mask == d.mask && t.out.driver.fiatCode == d.fiatCode
    ensures forall b :: Read(b) in t.out.events ==> Some(b.code) == d.fiatCode
  {
    ProcessOnce(d, data, true)
  }

  /** `_process(data)` followed by every retry it schedules, with the
      corrected packet size. Each retry is handed one byte less, or, once
      the data is exhausted, finds a shorter buffer, so the chain ends. */
  function Process(d: Driver, data: seq<byte>): (r: Output)
    ensures r.driver.mask == d.mask && r.driver.fiatCode == d.fiatCode
    ensures forall b :: Read(b) in r.events ==> Some(b.code) == d.fiatCode
    decreases |data|, |d.buf|
  {
    var t := Pass(d, data);
    match t.retry
    case None => t.out
    case Some(next) =>
      var rest := Process(t.out.driver, next);
      Output(rest.driver, t.out.events + rest.events, t.out.frames + rest.frames)
  }

  /** Feeding the driver a sequence of serial chunks, one corrected
      `_process` chain (`Process`, a size of 0 taken as 1) per chunk: the
      currency and mask never change and no bill in another currency is
      ever announced. */
  function Feed(d: Driver, chunks: seq<seq<byte>>): (r: Output)
    ensures r.driver.mask == d.mask && r.driver.fiatCode == d.fiatCode
    ensures forall b :: Read(b) in r.events ==> Some(b.code) == d.fiatCode
    decreases |chunks|
  {
    if |chunks| == 0 then Output(d, [], [])
    else
      var first := Process(d, chunks[0]);
      var rest := Feed(first.driver, chunks[1..]);
      Output(rest.driver, first.events + rest.events, first.frames + rest.frames)
  }

  /** Once the buffered bytes and the new data make up exactly one whole
      packet, that packet is handed to `_parse` as it is, and when it
      decodes the buffer is left empty and nothing is retried. */
  lemma DeliversWholePacket(d: Driver, data: seq<byte>, packet: seq<byte>)
    requires d.buf + data == packet && |packet| >= 2
    requires packet[0] == STX && packet[1] as int == |packet|
    requires Parse(d.(buf := []), packet).Success?
    ensures Process(d, data) == Parse(d.(buf := []), packet).value
    ensures Process(d, data).driver.buf == []
  {
    PassDeliversWholePacket(d, data, packet);
    ProcessWithoutRetry(d, data);
  }

  lemma PassDeliversWholePacket(d: Driver, data: seq<byte>, packet: seq<byte>)
    requires d.buf + data == packet && |packet| >= 2
    requires packet[0] == STX && packet[1] as int == |packet|
    requires Parse(d.(buf := []), packet).Success?
    ensures Pass(d, data) == Turn(Parse(d.(buf := []), packet).value, None)
  {
    PassCutsWholePacket(d, data, packet);
    DeliverDecoded(d.(buf := []), packet, data);
  }

  /** A pass over exactly one whole packet hands that packet to `_parse`
      with the buffer emptied. */
  lemma PassCutsWholePacket(d: Driver, data: seq<byte>, packet: seq<byte>)
    requires d.buf + data == packet && |packet| >= 2
    requires packet[0] == STX && packet[1] as int == |packet|
    ensures Pass(d, data) == Deliver(d.(buf := []), packet, data)
  {
    WholePacketExtracts(packet);
    assert |d.buf| == 0 ==> data == packet;
    ProcessOnceSettles(d, data, true);
    assert d.(buf := AcquireSync(d.buf + data)) == d.(buf := packet);
    SettleCuts(d.(buf := packet), data, true);
  }

  /** Apart from the ENQ fast path, a pass resyncs and settles. */
  lemma ProcessOnceSettles(d: Driver, data: seq<byte>, atLeastOne: bool)
    requires !(|d.buf| == 0 && data == [ENQ])
    ensures ProcessOnce(d, data, atLeastOne) == Settle(d.(buf := AcquireSync(d.buf + data)), data, atLeastOne)
  {
  }

  /** A settled buffer holding a whole packet delivers it. */
  lemma SettleCuts(d: Driver, data: seq<byte>, atLeastOne: bool)
    requires Extract(d.buf, atLeastOne).Packet?
    ensures var e := Extract(d.buf, atLeastOne);
            Settle(d, data, atLeastOne) == Deliver(d.(buf := e.rest), e.packet, data)
  {
  }

  /** A packet that decodes is delivered with `_parse`'s output and no retry. */
  lemma DeliverDecoded(d: Driver, packet: seq<byte>, data: seq<byte>)
    requires Parse(d, packet).Success?
    ensures Deliver(d, packet, data) == Turn(Parse(d, packet).value, None)
  {
  }

  /** A whole packet alone in the stream is in sync and is cut out whole. */
  lemma WholePacketExtracts(packet: seq<byte>)
    requires |packet| >= 2
    requires packet[0] == STX && packet[1] as int == |packet|
    ensures packet != [ENQ] && AcquireSync(packet) == packet
    ensures Extract(packet, true) == Packet(packet, [])
  {
    assert packet[..|packet|] == packet && packet[|packet|..] == [];
  }

  /** While the size byte announces more bytes than have arrived, the
      driver keeps them and waits: nothing is decoded, emitted or sent. */
  lemma PartialPacketWaits(d: Driver, data: seq<byte>)
    requires var buf := d.buf + data;
             |buf| >= 2 && buf[0] == STX && |buf| < buf[1] as int
    ensures Process(d, data) == Output(d.(buf := d.buf + data), [], [])
  {
    var buf := d.buf + data;
    assert buf != [ENQ];
    assert |d.buf| == 0 ==> data == buf;
    assert AcquireSync(buf) == buf;
    assert Extract(buf, true) == Incomplete;
    ProcessWithoutRetry(d, data);
  }

  /** A reply split across two serial chunks is decoded when its second
      part arrives, exactly as if it had arrived whole. */
  lemma SplitPacketDelivered(d: Driver, first: seq<byte>, second: seq<byte>)
    requires d.buf == []
    requires var packet := first + second;
             && |first| >= 2 && packet[0] == STX && packet[1] as int == |packet|
             && |second| > 0
    requires Parse(d, first + second).Success?
    ensures Process(d, first) == Output(d.(buf := first), [], [])
    ensures Process(d.(buf := first), second) == Parse(d, first + second).value
  {
    assert first[1] == (first + second)[1];
    assert d.buf + first == first;
    PartialPacketWaits(d, first);
    assert d.(buf := first).(buf := []) == d;
    DeliversWholePacket(d.(buf := first), second, first + second);
  }

  /** A pass that schedules no retry is the whole of the chain. */
  lemma ProcessWithoutRetry(d: Driver, data: seq<byte>)
    requires Pass(d, data).retry.None?
    ensures Process(d, data) == Pass(d, data).out
  {
  }

  /** Bytes without STX ahead of a packet, whether left in the buffer or
      arriving with it, make no difference to the output of that call of
      `_process`: the retry it schedules, if any, is on the data as handed. */
  lemma ResyncIgnoresGarbage(d: Driver, garbage: seq<byte>, packet: seq<byte>, atLeastOne: bool)
    requires STX !in d.buf + garbage
    requires |packet| > 0 && packet[0] == STX
    ensures ProcessOnce(d, garbage + packet, atLeastOne).out
         == ProcessOnce(d.(buf := []), packet, atLeastOne).out
  {
    GarbageIsDropped(d.buf, garbage, packet);
    var synced := d.(buf := packet);
    assert d.(buf := []).(buf := packet) == synced;
    SettleIgnoresData(synced, garbage + packet, packet, atLeastOne);
  }

  /** Over the whole `_process` chain: bytes without STX ahead of a packet
      that decodes are dropped, and the chain ends with `_parse`'s output
      for that packet, as if it had arrived alone on an empty buffer. */
  lemma GarbageBeforePacketIgnored(d: Driver, garbage: seq<byte>, packet: seq<byte>)
    requires STX !in d.buf + garbage
    requires |packet| >= 2 && packet[0] == STX && packet[1] as int == |packet|
    requires Parse(d.(buf := []), packet).Success?
    ensures Process(d, garbage + packet) == Process(d.(buf := []), packet)
    ensures Process(d, garbage + packet) == Parse(d.(buf := []), packet).value
  {
    var d0 := d.(buf := []);
    assert d0.buf + packet == packet;
    DeliversWholePacket(d0, packet, packet);
    PassSkipsGarbage(d, garbage, packet);
    ProcessWithoutRetry(d, garbage + packet);
  }

  lemma PassSkipsGarbage(d: Driver, garbage: seq<byte>, packet: seq<byte>)
    requires STX !in d.buf + garbage
    requires |packet| >= 2 && packet[0] == STX && packet[1] as int == |packet|
    requires Parse(d.(buf := []), packet).Success?
    ensures Pass(d, garbage + packet) == Turn(Parse(d.(buf := []), packet).value, None)
  {
    var data := garbage + packet;
    PassResyncs(d, garbage, packet);
    WholePacketExtracts(packet);
    SettleCuts(d.(buf := packet), data, true);
    assert d.(buf := packet).(buf := []) == d.(buf := []);
    DeliverDecoded(d.(buf := []), packet, data);
  }

  lemma PassResyncs(d: Driver, garbage: seq<byte>, packet: seq<byte>)
    requires STX !in d.buf + garbage
    requires |packet| > 0 && packet[0] == STX
    ensures Pass(d, garbage + packet) == Settle(d.(buf := packet), garbage + packet, true)
  {
    GarbageIsDropped(d.buf, garbage, packet);
    ProcessOnceSettles(d, garbage + packet, true);
  }

  /** Stream bytes without STX ahead of a packet vanish on resync, and a
      stream that holds a packet is not a lone ENQ. */
  lemma GarbageIsDropped(buf: seq<byte>, garbage: seq<byte>, packet: seq<byte>)
    requires STX !in buf + garbage
    requires |packet| > 0 && packet[0] == STX
    ensures AcquireSync(buf + (garbage + packet)) == packet
    ensures AcquireSync([] + packet) == packet
    ensures garbage + packet != [ENQ] && packet != [ENQ]
  {
    assert buf + (garbage + packet) == (buf + garbage) + packet;
    AcquireSyncSkipsGarbage(buf + garbage, packet);
    SyncedPacket(packet);
    NotEnq(garbage, packet);
  }

  lemma SyncedPacket(packet: seq<byte>)
    requires |packet| > 0 && packet[0] == STX
    ensures AcquireSync([] + packet) == packet
  {
    assert [] + packet == packet;
  }

  lemma NotEnq(garbage: seq<byte>, packet: seq<byte>)
    requires |packet| > 0 && packet[0] == STX
    ensures garbage + packet != [ENQ] && packet != [ENQ]
  {
    assert (garbage + packet)[|garbage|] == STX;
  }

  /** As written, a buffer whose size byte is 0 is stuck: every later call of
      `_process`, whatever it is handed, cuts out an empty packet, fails,
      emits and sends nothing, keeps the stuck header and schedules another
      call. Handed nothing, the call reschedules itself unchanged, forever. */
  lemma ZeroSizeStallsAsWritten(d: Driver, data: seq<byte>)
    requires |d.buf| >= 2 && d.buf[0] == STX && d.buf[1] == 0
    ensures var t := ProcessOnce(d, data, false);
            && t.out == Output(d.(buf := d.buf + data), [], [])
            && t.retry == Some(Tail(data))
    ensures ProcessOnce(d, [], false) == Turn(Output(d, [], []), Some([]))
  {
    assert AcquireSync(d.buf + data) == d.buf + data;
    assert (d.buf + data)[..0] == [];
    assert (d.buf + data)[0..] == d.buf + data;
    assert d.buf + [] == d.buf;
  }

  /** As written, any Omnibus reply arriving on an empty buffer fails to
      decode, and when its tail (the reply minus its STX) resyncs on a
      `02 00` pair, say status byte 2 reading 0x02 (only "invalid command")
      followed by a status byte 3 of 0x00, the retry keeps that pair as a
      header of size 0, from which `ZeroSizeStallsAsWritten` applies. */
  lemma OmnibusReplyStallsAsWritten(d: Driver, reply: seq<byte>)
    requires d.buf == []
    requires |reply| >= 3 && reply[0] == STX && reply[1] as int == |reply|
    requires (reply[2] >> 4) & 7 == OMNIBUS_REPLY
    requires var s := AcquireSync(reply[1..]); |s| >= 2 && s[1] == 0
    ensures ProcessOnce(d, reply, false) == Turn(Output(d, [], []), Some(reply[1..]))
    ensures var t := ProcessOnce(d, reply[1..], false);
            && t.retry == Some(reply[2..])
            && t.out == Output(d.(buf := AcquireSync(reply[1..])), [], [])
            && t.out.driver.buf[0] == STX && t.out.driver.buf[1] == 0
  {
    OmnibusFirstPass(d, reply);
    EmptyHeaderPass(d, reply[1..]);
    assert Tail(reply[1..]) == reply[2..];
  }

  lemma OmnibusFirstPass(d: Driver, reply: seq<byte>)
    requires d.buf == []
    requires |reply| >= 3 && reply[0] == STX && reply[1] as int == |reply|
    requires (reply[2] >> 4) & 7 == OMNIBUS_REPLY
    ensures ProcessOnce(d, reply, false) == Turn(Output(d, [], []), Some(reply[1..]))
  {
    ReplyCut(reply);
    ProcessOnceSettles(d, reply, false);
    SettleCuts(d.(buf := reply), reply, false);
    assert d.(buf := reply).(buf := []) == d;
    OmnibusReplyFails(d, reply);
  }

  /** As written, a whole packet alone in the stream is cut out whole. */
  lemma ReplyCut(reply: seq<byte>)
    requires |reply| >= 3 && reply[0] == STX && reply[1] as int == |reply|
    ensures reply != [ENQ] && AcquireSync([] + reply) == reply
    ensures Extract(reply, false) == Packet(reply, [])
  {
    SyncedPacket(reply);
    WholePacketExtracts(reply);
    ExtractAgrees(reply);
  }

  lemma OmnibusReplyFails(d: Driver, reply: seq<byte>)
    requires |reply| >= 3 && reply[1] as int == |reply|
    requires (reply[2] >> 4) & 7 == OMNIBUS_REPLY
    ensures Parse(d, reply).Failure?
  {
    OmnibusReplyNeverDecodes(reply);
  }

  /** As written, data that resyncs on a header of size 0 yields an empty
      packet: nothing is decoded, the header is kept and the data minus its
      first byte is retried. */
  lemma EmptyHeaderPass(d: Driver, data: seq<byte>)
    requires d.buf == []
    requires var s := AcquireSync(data); |s| >= 2 && s[1] == 0
    ensures ProcessOnce(d, data, false)
         == Turn(Output(d.(buf := AcquireSync(data)), [], []), Some(Tail(data)))
  {
    var s := AcquireSync(data);
    SyncsOnEmptyHeader(d, data);
    EmptyHeaderCut(s);
    SettleCuts(d.(buf := s), data, false);
    assert d.(buf := s).(buf := s) == d.(buf := s);
    EmptyPacketFails(d.(buf := s), data);
  }

  lemma SyncsOnEmptyHeader(d: Driver, data: seq<byte>)
    requires d.buf == []
    requires |AcquireSync(data)| >= 2
    ensures ProcessOnce(d, data, false) == Settle(d.(buf := AcquireSync(data)), data, false)
  {
    assert d.buf + data == data;
    assert data != [ENQ];
    ProcessOnceSettles(d, data, false);
  }

  /** As written, a header of size 0 is cut as an empty packet. */
  lemma EmptyHeaderCut(s: seq<byte>)
    requires |s| >= 2 && s[1] == 0
    ensures Extract(s, false) == Packet([], s)
  {
    assert s[..0] == [] && s[0..] == s;
  }

  /** An Omnibus reply (status: accepting, cassette removed) whose status
      bytes contain `02 00`. */
  const StallingReply: seq<byte> := [0x02, 0x0B, 0x20, 0x02, 0x00, 0x00, 0x00, 0x00, 0x00, 0x03, 0x29]

  /** The reply is a well-formed packet, and, like every Omnibus reply, it
      does not decode. */
  lemma StallingReplyFails(d: Driver)
    ensures ValidatePacket(StallingReply).Success?
    ensures Parse(d, StallingReply).Failure?
  {
    StallingReplyChecksum();
    OmnibusReplyNeverDecodes(StallingReply);
  }

  lemma StallingReplyChecksum()
    ensures Checksum(StallingReply) == 0x29
  {
    var z: byte := 0;
    var s0: seq<byte> := [];
    var s1 := s0 + [0x0B];
    var s2 := s1 + [0x20];
    var s3 := s2 + [0x02];
    var s4 := s3 + [z];
    var s5 := s4 + [z];
    var s6 := s5 + [z];
    var s7 := s6 + [z];
    var s8 := s7 + [z];
    XorAllSnoc(s0, 0x0B);
    XorAllSnoc(s1, 0x20);
    XorAllSnoc(s2, 0x02);
    XorAllSnoc(s3, z);
    XorAllSnoc(s4, z);
    XorAllSnoc(s5, z);
    XorAllSnoc(s6, z);
    XorAllSnoc(s7, z);
    assert StallingReply[1..|StallingReply| - 2] == s8;
  }

  lemma XorAllSnoc(s: seq<byte>, x: byte)
    ensures XorAll(s + [x]) == XorAll(s) ^ x
  {
    XorAllAppend(s, [x]);
    assert [x][..0] == [];
  }

  /** How the reassembler, as written, cuts the reply and then its tail: the
      reply is one whole packet; its tail resyncs on `02 00` and yields an
      empty packet. */
  lemma StallingReplyCuts()
    ensures StallingReply != [ENQ] && StallingReply[1..] != [ENQ]
    ensures AcquireSync([] + StallingReply) == StallingReply
    ensures Extract(StallingReply, false) == Packet(StallingReply, [])
    ensures AcquireSync([] + StallingReply[1..]) == StallingReply[3..]
    ensures Extract(StallingReply[3..], false) == Packet([], StallingReply[3..])
  {
    var reply := StallingReply;
    SyncedPacket(reply);
    StallingReplyWhole();
    StallingTailResyncs();
    StallingTailEmptyPacket();
  }

  lemma StallingReplyWhole()
    ensures Extract(StallingReply, false) == Packet(StallingReply, [])
  {
    assert StallingReply[..11] == StallingReply && StallingReply[11..] == [];
  }

  lemma StallingTailResyncs()
    ensures AcquireSync([] + StallingReply[1..]) == StallingReply[3..]
  {
    var tail := StallingReply[1..];
    assert [] + tail == [0x0B, 0x20] + StallingReply[3..];
    AcquireSyncSkipsGarbage([0x0B, 0x20], StallingReply[3..]);
    assert AcquireSync(StallingReply[3..]) == StallingReply[3..];
  }

  lemma StallingTailEmptyPacket()
    ensures Extract(StallingReply[3..], false) == Packet([], StallingReply[3..])
  {
    var rest := StallingReply[3..];
    assert rest[..0] == [] && rest[0..] == rest;
  }

  /** As written, the reply arriving on an empty buffer fails to decode; the
      retry on its tail resyncs on the status bytes `02 00`, which read as a
      packet header of size 0, and from there `ZeroSizeStallsAsWritten`
      applies: the driver never decodes anything again. */
  lemma StallingReplyStallsAsWritten(d: Driver)
    requires d.buf == []
    ensures ProcessOnce(d, StallingReply, false) == Turn(Output(d, [], []), Some(StallingReply[1..]))
    ensures var t := ProcessOnce(d, StallingReply[1..], false);
            && t.retry == Some(StallingReply[2..])
            && t.out == Output(d.(buf := StallingReply[3..]), [], [])
            && t.out.driver.buf[..2] == [STX, 0]
  {
    StallingFirstPass(d);
    StallingSecondPass(d);
  }

  lemma StallingFirstPass(d: Driver)
    requires d.buf == []
    ensures ProcessOnce(d, StallingReply, false) == Turn(Output(d, [], []), Some(StallingReply[1..]))
  {
    StallingReplyCuts();
    ProcessOnceSettles(d, StallingReply, false);
    SettleCuts(d.(buf := StallingReply), StallingReply, false);
    assert d.(buf := StallingReply).(buf := []) == d;
    StallingReplyFails(d);
  }

  lemma StallingSecondPass(d: Driver)
    requires d.buf == []
    ensures var t := ProcessOnce(d, StallingReply[1..], false);
            && t.retry == Some(StallingReply[2..])
            && t.out == Output(d.(buf := StallingReply[3..]), [], [])
            && t.out.driver.buf[..2] == [STX, 0]
  {
    var tail := StallingReply[1..];
    StallingReplyCuts();
    ProcessOnceSettles(d, tail, false);
    SettleCuts(d.(buf := StallingReply[3..]), tail, false);
    EmptyPacketFails(d.(buf := StallingReply[3..]), tail);
    assert Tail(tail) == StallingReply[2..];
    StallingTailHeader();
  }

  lemma StallingTailHeader()
    ensures StallingReply[3..][..2] == [STX, 0]
  {
    assert StallingReply[3..][0] == STX && StallingReply[3..][1] == 0;
  }

  /** An empty packet never decodes: its missing checksum is `undefined`. */
  lemma EmptyPacketFails(d: Driver, data: seq<byte>)
    ensures Deliver(d, [], data) == Turn(Output(d, [], []), Some(Tail(data)))
  {
    assert ValidatePacket([]).Failure?;
  }

  /** The correction changes nothing unless the synced buffer announces a
      packet of size 0. */
  lemma CorrectionOnlyTouchesZeroSize(d: Driver, data: seq<byte>)
    requires var synced := AcquireSync(d.buf + data);
             |synced| < 2 || synced[1] != 0
    ensures ProcessOnce(d, data, true) == ProcessOnce(d, data, false)
  {
    ExtractAgrees(AcquireSync(d.buf + data));
  }

  lemma ExtractAgrees(buf: seq<byte>)
    requires |buf| < 2 || buf[1] != 0
    ensures Extract(buf, true) == Extract(buf, false)
  {
  }

  /** The corrected reassembler drops the STX of a size-0 header and moves on. */
  lemma ZeroSizeSkippedWhenCorrected(d: Driver)
    requires |d.buf| >= 2 && d.buf[0] == STX && d.buf[1] == 0
    ensures Pass(d, []) == Turn(Output(d.(buf := d.buf[1..]), [], []), Some([]))
  {
    assert d.buf + [] == d.buf;
    assert ValidatePacket(d.buf[..1]).Failure?;
  }
}
