/** The six standard status bytes of an EBDS reply, their bit-fields, and
    the coarse device status the driver derives from them by a fixed
    priority. */
module StatusDecoder {
  import opened Wrappers
  import opened Bytes

  /** Bit `n` of `b`, as `getNth(n)` reads it. */
  function Bit(b: byte, n: nat): bool
    requires n < 8
  {
    (b >> n) & 1 == 1
  }

  /** Byte 0: where the document is in the transport. */
  datatype Byte0 = Byte0(idling: bool, accepting: bool, escrowed: bool, stacking: bool,
                         stacked: bool, returning: bool, returned: bool)

  /** Byte 1: exceptional conditions and the cashbox. */
  datatype Byte1 = Byte1(cheated: bool, rejected: bool, jammed: bool, stackerFull: bool,
                         cassetteAttached: bool, paused: bool, calibrating: bool)

  /** Byte 2: power-up, failures and the three-bit note value. */
  datatype Byte2 = Byte2(powerup: bool, invalidCommand: bool, failure: bool,
                         noteValue: byte, transportOpen: bool)

  /** Byte 3: miscellaneous device flags; bit 6 is reserved. */
  datatype Byte3 = Byte3(stalled: bool, flashDownload: bool, prestack: bool,
                         rawBarcode: bool, deviceCapabilities: bool, disabled: bool)

  /** The decoded standard status, `[B0, B1, B2, B3, B4, B5]` in the driver. */
  datatype StandardStatus = StandardStatus(b0: Byte0, b1: Byte1, b2: Byte2, b3: Byte3,
                                           modelNumber: byte, codeRevision: byte)

  /** The numeric fields fit their bit widths. */
  predicate WellFormed(st: StandardStatus)
  {
    st.b2.noteValue < 8 && st.modelNumber < 0x80 && st.codeRevision < 0x80
  }

  /** The flag as the bit at position `n`. */
  function BitOf(flag: bool, n: nat): byte
    requires n < 8
  {
    if flag then (1 as byte) << n else 0
  }

  function EncodeByte0(f: Byte0): byte
  {
    BitOf(f.idling, 0) | BitOf(f.accepting, 1) | BitOf(f.escrowed, 2) | BitOf(f.stacking, 3)
      | BitOf(f.stacked, 4) | BitOf(f.returning, 5) | BitOf(f.returned, 6)
  }

  function EncodeByte1(f: Byte1): byte
  {
    BitOf(f.cheated, 0) | BitOf(f.rejected, 1) | BitOf(f.jammed, 2) | BitOf(f.stackerFull, 3)
      | BitOf(f.cassetteAttached, 4) | BitOf(f.paused, 5) | BitOf(f.calibrating, 6)
  }

  function EncodeByte2(f: Byte2): byte
  {
    BitOf(f.powerup, 0) | BitOf(f.invalidCommand, 1) | BitOf(f.failure, 2)
      | ((f.noteValue & 7) << 3) | BitOf(f.transportOpen, 6)
  }

  function EncodeByte3(f: Byte3): byte
  {
    BitOf(f.stalled, 0) | BitOf(f.flashDownload, 1) | BitOf(f.prestack, 2)
      | BitOf(f.rawBarcode, 3) | BitOf(f.deviceCapabilities, 4) | BitOf(f.disabled, 5)
  }

  /** Lays a decoded status out as the six bytes it describes; the reserved
      bits (bit 7 everywhere, bit 6 of byte 3) are zero. */
  function EncodeStatus(st: StandardStatus): (r: seq<byte>)
    ensures |r| == 6
  {
    [EncodeByte0(st.b0), EncodeByte1(st.b1), EncodeByte2(st.b2), EncodeByte3(st.b3),
     st.modelNumber & 0x7f, st.codeRevision & 0x7f]
  }

  /** Byte 0 flags; laying them out again clears only bit 7. */
  function DestructByte0(d: byte): (r: Byte0)
    ensures EncodeByte0(r) == d & 0x7f
  {
    Byte0(Bit(d, 0), Bit(d, 1), Bit(d, 2), Bit(d, 3), Bit(d, 4), Bit(d, 5), Bit(d, 6))
  }

  /** Byte 1 flags; laying them out again clears only bit 7. */
  function DestructByte1(d: byte): (r: Byte1)
    ensures EncodeByte1(r) == d & 0x7f
  {
    Byte1(Bit(d, 0), Bit(d, 1), Bit(d, 2), Bit(d, 3), Bit(d, 4), Bit(d, 5), Bit(d, 6))
  }

  /** Byte 2 fields, the note value being bits 3..5 (`getNths(3, 6)`);
      laying them out again clears only bit 7. */
  function DestructByte2(d: byte): (r: Byte2)
    ensures r.noteValue < 8
    ensures EncodeByte2(r) == d & 0x7f
  {
    Byte2(Bit(d, 0), Bit(d, 1), Bit(d, 2), (d >> 3) & 7, Bit(d, 6))
  }

  /** Byte 3 flags; laying them out again clears the reserved bits 6 and 7. */
  function DestructByte3(d: byte): (r: Byte3)
    ensures EncodeByte3(r) == d & 0x3f
  {
    Byte3(Bit(d, 0), Bit(d, 1), Bit(d, 2), Bit(d, 3), Bit(d, 4), Bit(d, 5))
  }

  /** `destructData`: `null` for fewer than six bytes; otherwise each flag is
      one bit of its byte, the note value is bits 3..5 of byte 2, and the
      model number and firmware revision are the low seven bits
      (`getNths(0, 7)`) of bytes 4 and 5. Laying the result out again gives
      back the first six bytes with only their reserved bits cleared. */
  function DestructData(data: seq<byte>): (r: Option<StandardStatus>)
    ensures r.Some? <==> |data| >= 6
    ensures r.Some? ==> WellFormed(r.value)
    ensures r.Some? ==>
              EncodeStatus(r.value) == [data[0] & 0x7f, data[1] & 0x7f, data[2] & 0x7f,
                                        data[3] & 0x3f, data[4] & 0x7f, data[5] & 0x7f]
  {
    if |data| < 6 then None
    else
      Some(StandardStatus(DestructByte0(data[0]), DestructByte1(data[1]),
                          DestructByte2(data[2]), DestructByte3(data[3]),
                          data[4] & 0x7f, data[5] & 0x7f))
  }

  /** Decoding the bytes of a well-formed status gives that status back. */
  lemma DecodeEncodedStatus(st: StandardStatus)
    requires WellFormed(st)
    ensures DestructData(EncodeStatus(st)) == Some(st)
  {
    Byte0RoundTrip(st.b0);
    Byte1RoundTrip(st.b1);
    Byte2RoundTrip(st.b2);
    Byte3RoundTrip(st.b3);
  }

  lemma Byte0RoundTrip(f: Byte0)
    ensures DestructByte0(EncodeByte0(f)) == f
  {
  }

  lemma Byte1RoundTrip(f: Byte1)
    ensures DestructByte1(EncodeByte1(f)) == f
  {
  }

  lemma Byte2RoundTrip(f: Byte2)
    requires f.noteValue < 8
    ensures DestructByte2(EncodeByte2(f)) == f
  {
  }

  lemma Byte3RoundTrip(f: Byte3)
    ensures DestructByte3(EncodeByte3(f)) == f
  {
  }

  /** The coarse status reported to the consumer (`null` is `None`). */
  datatype Status = BillRead | BillValid | BillRejected | Jam | StackerOpen | Idle

  /** Priority of each coarse status: lower wins. */
  function Rank(x: Status): nat
  {
    match x
    case BillRead => 0
    case BillValid => 1
    case BillRejected => 2
    case Jam => 3
    case StackerOpen => 4
    case Idle => 5
  }

  /** The condition under which each coarse status applies, on its own. */
  predicate Holds(x: Status, st: StandardStatus)
  {
    match x
    case BillRead => st.b0.escrowed
    case BillValid => st.b0.accepting && st.b0.stacking
    case BillRejected => st.b0.returned || st.b1.cheated || st.b1.rejected
    case Jam => st.b1.jammed
    case StackerOpen => !st.b1.cassetteAttached
    case Idle => st.b0.idling
  }

  /** `parseStatus`: the applicable status of highest priority, or `None`
      when no condition applies. */
  function ParseStatus(st: StandardStatus): (r: Option<Status>)
    ensures r.Some? ==> Holds(r.value, st)
    ensures r.Some? ==> forall y :: Rank(y) < Rank(r.value) ==> !Holds(y, st)
    ensures r.None? ==> forall y :: !Holds(y, st)
  {
    if st.b0.escrowed then Some(BillRead)
    else if st.b0.accepting && st.b0.stacking then Some(BillValid)
    else if st.b0.returned || st.b1.cheated || st.b1.rejected then Some(BillRejected)
    else if st.b1.jammed then Some(Jam)
    else if !st.b1.cassetteAttached then Some(StackerOpen)
    else if st.b0.idling then Some(Idle)
    else None
  }

  /** The status the six bytes of an Omnibus reply are meant to report,
      `parseStatus(destructData(data))`, stated on the raw bits. */
  lemma {:induction false} StandardStatusOfBytes(data: seq<byte>)
    requires |data| >= 6
    ensures var r := ParseStatus(DestructData(data).value);
            var d0, d1 := data[0], data[1];
            && (r == Some(BillRead) <==> d0 & 0x04 != 0)
            && (r == Some(BillValid) <==> d0 & 0x04 == 0 && d0 & 0x0a == 0x0a)
            && (r == Some(BillRejected) <==>
                  d0 & 0x04 == 0 && d0 & 0x0a != 0x0a && (d0 & 0x40 != 0 || d1 & 0x03 != 0))
            && (r == Some(Jam) <==>
                  d0 & 0x4e != 0x0a && d0 & 0x44 == 0 && d1 & 0x07 == 0x04)
            && (r == Some(StackerOpen) <==>
                  d0 & 0x44 == 0 && d0 & 0x0a != 0x0a && d1 & 0x17 == 0)
            && (r == Some(Idle) <==>
                  d0 & 0x45 == 0x01 && d0 & 0x0a != 0x0a && d1 & 0x17 == 0x10)
            && (r == None <==>
                  d0 & 0x45 == 0 && d0 & 0x0a != 0x0a && d1 & 0x17 == 0x10)
  {
    var st := DestructData(data).value;
    assert st.b0.escrowed == (data[0] & 0x04 != 0);
    assert st.b0.accepting == (data[0] & 0x02 != 0);
    assert st.b0.stacking == (data[0] & 0x08 != 0);
    assert st.b0.returned == (data[0] & 0x40 != 0);
    assert st.b0.idling == (data[0] & 0x01 != 0);
    assert st.b1.cheated == (data[1] & 0x01 != 0);
    assert st.b1.rejected == (data[1] & 0x02 != 0);
    assert st.b1.jammed == (data[1] & 0x04 != 0);
    assert st.b1.cassetteAttached == (data[1] & 0x10 != 0);
  }
}
