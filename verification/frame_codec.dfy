/** The EBDS wire frame `STX | len | ctl | data | ETX | chk`: the checksum,
    packet validation, the outgoing frame builder with its alternating ack
    bit, and the header/control-byte decoders. */
module FrameCodec {
  import opened Wrappers
  import opened Bytes

  /** Why a received packet is not interpreted. The driver throws in each
      case; the stream reassembler catches the throw and retries. */
  datatype DecodeError =
    | BadChecksum        // validatePacket: last byte is not the checksum
    | MissingEtx         // validatePacket: byte before the checksum is not ETX
    | UndefinedProperty  // a property read on `undefined` or `null`
    | UnboundName        // a reference to a name that is not in scope

  /** The one way building an outgoing frame fails. */
  datatype BuildError = DataTooLong

  /** The checksum the driver computes: XOR of the bytes at indices
      1 .. |frame|-3, i.e. everything except STX and the trailing ETX and
      checksum bytes. Frames shorter than three bytes have checksum 0. */
  function Checksum(frame: seq<byte>): byte
  {
    if |frame| < 3 then 0 else XorAll(frame[1..|frame| - 2])
  }

  /** The driver's checksum loop, which XORs `frame[i]` into the running
      value for `i` from 1 while `i < |frame| - 2`. */
  method ComputeChecksum(frame: seq<byte>) returns (cs: byte)
    ensures cs == Checksum(frame)
    ensures |frame| >= 3 ==> XorAll(frame[1..|frame| - 2] + [cs]) == 0
  {
    cs := 0;
    var i := 1;
    while i < |frame| - 2
      invariant 1 <= i
      invariant |frame| >= 3 ==> i <= |frame| - 2 && cs == XorAll(frame[1..i])
      invariant |frame| < 3 ==> cs == 0
    {
      assert frame[1..i + 1][..i - 1] == frame[1..i];
      cs := frame[i] ^ cs;
      i := i + 1;
    }
    if |frame| >= 3 {
      ChecksumCancels(frame[1..|frame| - 2]);
    }
  }

  /** Appending the XOR of a sequence to it cancels it out. */
  lemma ChecksumCancels(body: seq<byte>)
    ensures XorAll(body + [XorAll(body)]) == 0
  {
    assert (body + [XorAll(body)])[..|body|] == body;
  }

  /** `validatePacket`: the checksum is tested first, then the ETX byte. */
  function ValidatePacket(frame: seq<byte>): (r: Result<(), DecodeError>)
    ensures r.Success? <==>
              && |frame| >= 2
              && frame[|frame| - 1] == Checksum(frame)
              && frame[|frame| - 2] == ETX
    ensures r == Failure(BadChecksum) <==>
              |frame| == 0 || frame[|frame| - 1] != Checksum(frame)
    ensures r.Failure? ==> r.error == BadChecksum || r.error == MissingEtx
  {
    if |frame| == 0 || frame[|frame| - 1] != Checksum(frame) then Failure(BadChecksum)
    else if |frame| < 2 || frame[|frame| - 2] != ETX then Failure(MissingEtx)
    else Success(())
  }

  /** The ack bit after `this.ack = ~this.ack & 0b1`. */
  function FlipAck(ack: byte): (r: byte)
    ensures r <= 1
    ensures r == 1 - (ack & 1)
    ensures ack <= 1 ==> r != ack
  {
    !ack & 1
  }

  /** An outgoing frame together with the ack bit it carries. */
  datatype Built = Built(ack: byte, frame: seq<byte>)

  /** `_buildFrame`: refuses data longer than 250 bytes before touching the
      ack bit; otherwise flips the ack bit and lays out
      `STX | |data|+5 | 0x10|ack | data | ETX | checksum`. */
  function BuildFrame(ack: byte, data: seq<byte>): (r: Result<Built, BuildError>)
    ensures r.Success? <==> |data| + 5 <= 0xff
    ensures r.Success? ==>
              var f := r.value.frame;
              && r.value.ack == FlipAck(ack)
              && |f| == |data| + 5
              && f[0] == STX
              && f[1] as int == |f|
              && f[2] == 0x10 | r.value.ack
              && f[3..|f| - 2] == data
              && f[|f| - 2] == ETX
              && f[|f| - 1] == Checksum(f)
  {
    var length := |data| + 5;
    if length > 0xff then Failure(DataTooLong)
    else
      var newAck := FlipAck(ack);
      // The driver writes a placeholder checksum and then overwrites it with
      // the checksum of the placeholder frame, which does not read that byte.
      var lengthByte := ByteOf(length);
      var body := [lengthByte, 0x10 | newAck] + data;
      var frame := [STX] + body + [ETX, XorAll(body)];
      FrameLayout(lengthByte, 0x10 | newAck, data);
      assert frame[1] as int == |frame|;
      Success(Built(newAck, frame))
  }

  /** Where the pieces of a laid-out frame end up, and that its last byte
      is its checksum. */
  lemma FrameLayout(lengthByte: byte, ctl: byte, data: seq<byte>)
    ensures var body := [lengthByte, ctl] + data;
            var f := [STX] + body + [ETX, XorAll(body)];
            && |f| == |data| + 5
            && f[0] == STX && f[1] == lengthByte && f[2] == ctl
            && f[3..|f| - 2] == data
            && f[|f| - 2] == ETX
            && f[|f| - 1] == Checksum(f)
  {
    var body := [lengthByte, ctl] + data;
    var frame := [STX] + body + [ETX, XorAll(body)];
    assert frame[1..|frame| - 2] == body;
    assert frame[3..|frame| - 2] == data;
  }

  /** The byte holding a number below 256, built up one increment at a time
      so that its value is plain. */
  function ByteOf(n: nat): (b: byte)
    requires n < 0x100
    ensures b as int == n
  {
    if n == 0 then 0
    else
      var p := ByteOf(n - 1);
      Increment(p);
      p + 1
  }

  lemma Increment(b: byte)
    requires b < 0xff
    ensures (b + 1) as int == b as int + 1
  {
  }

  /** The control byte `0b0MMMDDDA`: ack bit, device type, message type. */
  datatype Ctl = Ctl(ack: byte, devType: byte, msgType: byte)

  const OMNIBUS_REPLY: byte := 0x2
  const EXTENDED_REPLY: byte := 0x7

  /** Re-encodes the three control-byte fields. */
  function EncodeCtl(c: Ctl): byte
  {
    (c.msgType << 4) | (c.devType << 1) | c.ack
  }

  predicate ValidCtl(c: Ctl)
  {
    c.ack <= 1 && c.devType <= 7 && c.msgType <= 7
  }

  /** `destructCtlByte`: splits the control byte; only bit 7 is lost. */
  function DestructCtlByte(ctl: byte): (r: Ctl)
    ensures ValidCtl(r)
    ensures EncodeCtl(r) == ctl & 0x7f
  {
    Ctl(ctl & 1, (ctl >> 1) & 7, (ctl >> 4) & 7)
  }

  /** Encoding a well-formed control record and splitting it again gives it back. */
  lemma CtlRoundTrip(c: Ctl)
    requires ValidCtl(c)
    ensures DestructCtlByte(EncodeCtl(c)) == c
  {
  }

  /** The fields `destructFrame` reads out of a packet. `etx` and `chk` are
      `None` where JavaScript reads `undefined`: both on a three-byte frame,
      and `chk` on a four-byte frame, whose last byte is read as `etx`. */
  datatype Frame = Frame(stx: byte, len: byte, ctl: Ctl, data: seq<byte>,
                         etx: Option<byte>, chk: Option<byte>)

  /** `destructFrame`: `null` unless the packet has at least three bytes and
      its length byte equals its length. The STX/ETX/checksum sanity test it
      computes is only logged, so it does not influence the result. */
  function DestructFrame(frame: seq<byte>): (r: Option<Frame>)
    ensures r.Some? <==> |frame| >= 3 && frame[1] as int == |frame|
    ensures r.Some? ==>
              && r.value.ctl == DestructCtlByte(frame[2])
              && r.value.len == frame[1]
              && r.value.stx == frame[0]
    ensures r.Some? && |frame| >= 5 ==>
              && r.value.data == frame[3..|frame| - 2]
              && r.value.etx == Some(frame[|frame| - 2])
              && r.value.chk == Some(frame[|frame| - 1])
    ensures r.Some? && |frame| < 5 ==> r.value.data == []
    ensures r.Some? && |frame| == 3 ==> r.value.etx.None? && r.value.chk.None?
    ensures r.Some? && |frame| == 4 ==> r.value.etx == Some(frame[3]) && r.value.chk.None?
  {
    if |frame| < 3 || frame[1] as int != |frame| then None
    else
      var len := frame[1] as int;
      var rest := frame[3..];
      var data := Slice(rest, 0, len - 5);
      var trailer := SliceFrom(rest, len - 5);
      Some(Frame(frame[0], frame[1], DestructCtlByte(frame[2]), data,
                 At(trailer, 0), At(trailer, 1)))
  }

  /** Round trip: every frame `_buildFrame` produces passes `validatePacket`,
      `destructFrame` returns its data unchanged, the control byte carries
      the new ack bit in the "Omnibus command" message type, and XOR-ing the
      checksum back into the checked bytes gives zero. */
  lemma {:induction false} BuildFrameRoundTrip(ack: byte, data: seq<byte>)
    requires |data| + 5 <= 0xff
    ensures var b := BuildFrame(ack, data).value;
            && ValidatePacket(b.frame) == Success(())
            && DestructFrame(b.frame).Some?
            && DestructFrame(b.frame).value.data == data
            && DestructFrame(b.frame).value.ctl == Ctl(b.ack, 0, 1)
            && XorAll(b.frame[1..|b.frame| - 2] + [b.frame[|b.frame| - 1]]) == 0
  {
    var b := BuildFrame(ack, data).value;
    var f := b.frame;
    assert f[|f| - 1] == XorAll(f[1..|f| - 2]);
    ChecksumCancels(f[1..|f| - 2]);
    assert b.ack <= 1;
    assert DestructCtlByte(0x10 | b.ack) == Ctl(b.ack, 0, 1);
  }
}
