/** The driver object as an immutable record, and its command and reply
    handling: each operation returns the new driver together with the events
    it emits and the frames it writes to the serial line, in order. */
module Controller {
  import opened Wrappers
  import opened Bytes
  import opened FrameCodec
  import opened StatusDecoder
  import opened ExtendedDecoder
  import opened Interpreter

  /** The mutable fields of the driver that its logic reads: the receive
      buffer, the ack bit of the last frame sent, the enabled-denominations
      mask, the configured currency code and the last status seen. */
  datatype Driver = Driver(buf: seq<byte>, ack: byte, mask: byte,
                           fiatCode: Option<seq<byte>>, currentStatus: Option<Status>)

  /** What the driver emits: `Accepted` is `billAccepted`, `Read(b)` is
      `billRead` with the bill, and `Report(x)` is `emit(x)` for every other
      status. */
  datatype Event = Accepted | Read(bill: Bill) | Report(status: Status)

  /** The driver after an operation, the events it emitted and the frames it
      wrote, each in order. */
  datatype Output = Output(driver: Driver, events: seq<Event>, frames: seq<seq<byte>>)

  /** The three Omnibus commands the driver sends. */
  datatype Command = Poll | Reject | Stack

  /** The constructor: empty buffer, ack bit 0, nothing enabled, no currency
      and no status yet. */
  function Initial(): (d: Driver)
    ensures d.buf == [] && d.ack == 0 && d.mask == 0
    ensures d.fiatCode.None? && d.currentStatus.None?
  {
    Driver([], 0, 0, None, None)
  }

  /** `setFiatCode`: only the currency changes. */
  function SetFiatCode(d: Driver, fiatCode: Option<seq<byte>>): (r: Driver)
    ensures r.fiatCode == fiatCode
    ensures r == d.(fiatCode := fiatCode)
  {
    Driver(d.buf, d.ack, d.mask, fiatCode, d.currentStatus)
  }

  /** The three Omnibus command bytes: the denomination mask, then the mode
      byte (escrow mode always on; bit 5 is the document-stack command and
      bit 6 the document-return command), then 0x10 (extended note
      reporting on). */
  function Payload(mask: byte, c: Command): (p: seq<byte>)
    ensures |p| == 3 && p[0] == mask && p[2] == 0x10
    ensures p[1] & 0x10 == 0x10
    ensures c == Poll <==> p[1] & 0x60 == 0
    ensures c == Stack <==> p[1] & 0x60 == 0x20
    ensures c == Reject <==> p[1] & 0x60 == 0x40
    // The other mode bits: interrupt mode and high security always on,
    // bit 7 clear, and the orientation control of bits 2..3 is 0b10 for a
    // poll and 0b11 for the stack and return commands.
    ensures p[1] & 0x8f == (if c == Poll then 0x0b else 0x0f)
  {
    var mode: byte := match c
      case Poll => 0x1b
      case Stack => 0x3f
      case Reject => 0x5f;
    [mask, mode, 0x10]
  }

  /** A frame that starts with STX and the control byte `0x10 | ack`, passes
      `validatePacket`, and that `destructFrame` reads as an Omnibus command
      with the given ack bit and data. */
  predicate Carries(frame: seq<byte>, ack: byte, data: seq<byte>)
  {
    && |frame| >= 3 && frame[0] == STX && frame[2] == 0x10 | ack
    && ValidatePacket(frame).Success?
    && DestructFrame(frame).Some?
    && DestructFrame(frame).value.ctl == Ctl(ack, 0, 1)
    && DestructFrame(frame).value.data == data
  }

  /** `_dispatch`: frames the command bytes with a flipped ack bit and writes
      the frame. Nothing else changes. */
  function Transmit(d: Driver, payload: seq<byte>): (r: Output)
    requires |payload| == 3
    ensures r.driver == d.(ack := FlipAck(d.ack))
    ensures r.events == [] && |r.frames| == 1
    ensures Carries(r.frames[0], r.driver.ack, payload)
  {
    BuildFrameRoundTrip(d.ack, payload);
    var b := BuildFrame(d.ack, payload).value;
    Output(d.(ack := b.ack), [], [b.frame])
  }

  /** `_poll`, `reject` and `stack`: one command frame carrying the current
      mask. */
  function Send(d: Driver, c: Command): (r: Output)
    ensures r.driver == d.(ack := FlipAck(d.ack))
    ensures r.events == [] && |r.frames| == 1
    ensures Carries(r.frames[0], r.driver.ack, Payload(d.mask, c))
  {
    Transmit(d, Payload(d.mask, c))
  }

  /** `run`, once the port is open: one poll with every denomination
      disabled, whatever the mask. */
  function Run(d: Driver): (r: Output)
    ensures r.driver == d.(ack := FlipAck(d.ack))
    ensures r.events == [] && |r.frames| == 1
    ensures Carries(r.frames[0], r.driver.ack, Payload(0, Poll))
  {
    Transmit(d, Payload(0, Poll))
  }

  /** `enable`: all seven denominations on, then a poll that carries them. */
  function Enable(d: Driver): (r: Output)
    ensures r.driver == d.(mask := 0x7f, ack := FlipAck(d.ack))
    ensures r.events == [] && |r.frames| == 1
    ensures Carries(r.frames[0], r.driver.ack, Payload(0x7f, Poll))
  {
    Send(d.(mask := 0x7f), Poll)
  }

  /** `disable`: every denomination off, then a poll that carries that. */
  function Disable(d: Driver): (r: Output)
    ensures r.driver == d.(mask := 0x00, ack := FlipAck(d.ack))
    ensures r.events == [] && |r.frames| == 1
    ensures Carries(r.frames[0], r.driver.ack, Payload(0x00, Poll))
  {
    Send(d.(mask := 0x00), Poll)
  }

  /** JavaScript falsiness of a denomination: `NaN` (here `None`) or zero. */
  predicate Falsy(denomination: Option<real>)
  {
    denomination.None? || denomination.value == 0.0
  }

  /** The reaction of `_parse` to a decoded reply: nothing when the status
      is unchanged; otherwise record the status first, then reject a bill
      read without a bill or in a foreign currency, stay silent on a bill
      valid without a denomination, and emit the status in every other case. */
  function React(d: Driver, i: Interpretation): (r: Output)
    ensures d.currentStatus == i.status ==> r == Output(d, [], [])
    ensures d.currentStatus != i.status ==> r.driver.currentStatus == i.status
    ensures r.driver.buf == d.buf && r.driver.mask == d.mask && r.driver.fiatCode == d.fiatCode
    // A bill is announced only in the configured currency, and then in full.
    ensures forall b :: Read(b) in r.events ==> Some(b.code) == d.fiatCode
    ensures d.currentStatus != i.status && i.status == Some(BillRead) ==>
              if i.bill.Some? && Some(i.bill.value.code) == d.fiatCode
              then r.events == [Accepted, Read(i.bill.value)] && r.frames == []
              else r.events == [] && |r.frames| == 1
    // Frames are sent only to reject a bill.
    ensures r.frames != [] ==>
              && i.status == Some(BillRead) && d.currentStatus != i.status
              && r.events == [] && |r.frames| == 1
              && Carries(r.frames[0], r.driver.ack, Payload(d.mask, Reject))
    ensures r.frames == [] ==> r.driver.ack == d.ack
    ensures r.frames != [] ==> r.driver == d.(currentStatus := i.status, ack := FlipAck(d.ack))
    // Any other new status is reported as itself, except a bill valid
    // whose denomination is missing or zero.
    ensures d.currentStatus != i.status && i.status.Some? && i.status != Some(BillRead) ==>
              && r.frames == []
              && (r.events == [] <==> i.status == Some(BillValid) && i.bill.Some? && Falsy(i.bill.value.denomination))
              && (r.events != [] ==> r.events == [Report(i.status.value)])
    ensures i.status.None? ==> r.events == [] && r.frames == []
  {
    if d.currentStatus == i.status then Output(d, [], [])
    else
      var d1 := d.(currentStatus := i.status);
      if i.status == Some(BillRead) then
        if i.bill.None? || Some(i.bill.value.code) != d.fiatCode then Send(d1, Reject)
        else Output(d1, [Accepted, Read(i.bill.value)], [])
      else if i.status == Some(BillValid) && i.bill.Some? && Falsy(i.bill.value.denomination) then
        Output(d1, [], [])
      else if i.status.Some? then Output(d1, [Report(i.status.value)], [])
      else Output(d1, [], [])
  }

  /** `_parse`: it fails exactly when validation or decoding throws, which
      happens before anything changes; a reply `interpret` ignores changes
      nothing; any other goes to `React`. It never touches the buffer, the
      mask or the currency. */
  function Parse(d: Driver, packet: seq<byte>): (r: Result<Output, DecodeError>)
    ensures r.Success? <==> ValidatePacket(packet).Success? && Interpret(packet).Success?
    ensures ValidatePacket(packet).Failure? ==> r == Failure(ValidatePacket(packet).error)
    ensures r.Success? ==>
              && r.value.driver.buf == d.buf
              && r.value.driver.mask == d.mask
              && r.value.driver.fiatCode == d.fiatCode
              && forall b :: Read(b) in r.value.events ==> Some(b.code) == d.fiatCode
    ensures r.Success? && Interpret(packet).value.None? ==> r.value == Output(d, [], [])
    ensures r.Success? && Interpret(packet).value.Some? ==>
              r.value == React(d, Interpret(packet).value.value)
  {
    var _ :- ValidatePacket(packet);
    var result :- Interpret(packet);
    match result
    case None => Success(Output(d, [], []))
    case Some(i) => Success(React(d, i))
  }

  /** A reply delivered twice has no further effect the second time: the
      first delivery records its status, so the second finds it unchanged. */
  lemma ParseIdempotent(d: Driver, packet: seq<byte>)
    requires Parse(d, packet).Success?
    ensures var d1 := Parse(d, packet).value.driver;
            Parse(d1, packet) == Success(Output(d1, [], []))
  {
    match Interpret(packet)
    case Success(Some(i)) =>
      var d1 := React(d, i).driver;
      assert d1.currentStatus == i.status;
    case Success(None) =>
    case Failure(_) =>
  }

  /** The ack bit after `n` frames have been sent, starting from `ack`. */
  function AckAfter(ack: byte, n: nat): byte
    decreases n
  {
    if n == 0 then ack else AckAfter(FlipAck(ack), n - 1)
  }

  /** Sending several commands in a row: one frame per command, no event,
      and only the ack bit changes, flipped once per frame. */
  function SendAll(d: Driver, cs: seq<Command>): (r: Output)
    ensures |r.frames| == |cs| && r.events == []
    ensures r.driver == d.(ack := AckAfter(d.ack, |cs|))
    decreases |cs|
  {
    if |cs| == 0 then Output(d, [], [])
    else
      var first := Send(d, cs[0]);
      var rest := SendAll(first.driver, cs[1..]);
      Output(rest.driver, [], first.frames + rest.frames)
  }

  /** The `k`-th frame of a run of commands carries the `k`-th command and
      the ack bit of the `k+1`-th flip. */
  lemma {:induction false} SendAllFrame(d: Driver, cs: seq<Command>, k: nat)
    requires k < |cs|
    ensures Carries(SendAll(d, cs).frames[k], AckAfter(d.ack, k + 1), Payload(d.mask, cs[k]))
    decreases k
  {
    var first := Send(d, cs[0]);
    var rest := SendAll(first.driver, cs[1..]);
    assert SendAll(d, cs).frames == first.frames + rest.frames;
    if k > 0 {
      SendAllFrame(first.driver, cs[1..], k - 1);
      assert SendAll(d, cs).frames[k] == rest.frames[k - 1];
      assert cs[1..][k - 1] == cs[k];
    }
  }

  /** The ack bit alternates between frames: starting from a valid ack bit,
      an even number of frames leaves it as it was and an odd number flips
      it. From the constructor's 0, the first frame carries 1. */
  lemma {:induction false} AckAlternates(ack: byte, n: nat)
    requires ack <= 1
    ensures AckAfter(ack, n) == if n % 2 == 0 then ack else 1 - ack
    decreases n
  {
    if n > 0 {
      AckAlternates(FlipAck(ack), n - 1);
    }
  }
}
