/** `interpret`: dispatches a validated packet on its message type to the
    standard (Omnibus reply) or extended decoder. */
module Interpreter {
  import opened Wrappers
  import opened Bytes
  import opened FrameCodec
  import opened StatusDecoder
  import opened ExtendedDecoder

  /** `parseStandard` as it is written: it hands the raw bytes, not their
      decoded fields, to `parseStatus`, which throws on fewer than two bytes,
      and it then returns the unbound name `destructed`. It never returns. */
  function ParseStandard(data: seq<byte>): (r: Result<Option<Interpretation>, DecodeError>)
    ensures r.Failure?
    ensures |data| < 2 ==> r.error == UndefinedProperty
    ensures |data| >= 2 ==> r.error == UnboundName
  {
    if |data| < 2 then Failure(UndefinedProperty)
    else Failure(UnboundName)
  }

  /** `interpret`: a packet `destructFrame` rejects makes the destructuring of
      its result throw; message type 0b010 goes to `parseStandard`, 0b111 to
      `parseExtended`, and every other type is ignored (`null`). */
  function Interpret(frame: seq<byte>): (r: Result<Option<Interpretation>, DecodeError>)
    ensures DestructFrame(frame).None? ==> r == Failure(UndefinedProperty)
    ensures DestructFrame(frame).Some? ==>
              var f := DestructFrame(frame).value;
              && (f.ctl.msgType == OMNIBUS_REPLY ==> r.Failure?)
              && (f.ctl.msgType == EXTENDED_REPLY ==> r == ParseExtended(f.data))
              && (f.ctl.msgType != OMNIBUS_REPLY && f.ctl.msgType != EXTENDED_REPLY ==>
                    r == Success(None))
  {
    match DestructFrame(frame)
    case None => Failure(UndefinedProperty)
    case Some(f) =>
      if f.ctl.msgType == OMNIBUS_REPLY then ParseStandard(f.data)
      else if f.ctl.msgType == EXTENDED_REPLY then ParseExtended(f.data)
      else Success(None)
  }

  /** Every Omnibus reply that reaches `interpret` fails to decode, whatever
      its status bytes say. */
  lemma OmnibusReplyNeverDecodes(frame: seq<byte>)
    requires |frame| >= 3 && frame[1] as int == |frame|
    requires (frame[2] >> 4) & 7 == OMNIBUS_REPLY
    ensures Interpret(frame).Failure?
  {
  }
}
