/**
 * The radio handle the driver talks to (an RfCat dongle). Its internals are
 * not modelled: the handle records every call made on it, in order, and
 * each call either returns or raises, as the device decides.
 */
module Rflib {
  import opened Packet

  /** The modulation the driver selects: amplitude on/off keying. */
  datatype Modulation = ModAskOok

  /** One call on the radio handle. */
  datatype Call =
    | SetFreq(hz: int)
    | SetMaxPower
    | SetMdmModulation(modulation: Modulation)
    | SetMdmDRate(baud: int)
    | MakePktFLEN(length: int)
    | SetMdmSyncMode(mode: int)
    | RFxmit(data: seq<byte>)
    | SetModeIDLE
    | Cleanup

  /** A call and whether it returned (ok) or raised. */
  datatype Event = Event(call: Call, ok: bool)

  class RfCat {
    /** Every call made on this handle so far, oldest first. */
    var trace: seq<Event>

    constructor ()
      ensures trace == []
    {
      trace := [];
    }

    /** Makes one call; whether it returns or raises is the device's choice. */
    method Perform(c: Call) returns (ok: bool)
      modifies this
      ensures trace == old(trace) + [Event(c, ok)]
    {
      ok :| true;
      trace := trace + [Event(c, ok)];
    }

    method SetFreq(hz: int) returns (ok: bool)
      modifies this
      ensures trace == old(trace) + [Event(Call.SetFreq(hz), ok)]
    {
      ok := Perform(Call.SetFreq(hz));
    }

    method SetMaxPower() returns (ok: bool)
      modifies this
      ensures trace == old(trace) + [Event(Call.SetMaxPower, ok)]
    {
      ok := Perform(Call.SetMaxPower);
    }

    method SetMdmModulation(modulation: Modulation) returns (ok: bool)
      modifies this
      ensures trace == old(trace) + [Event(Call.SetMdmModulation(modulation), ok)]
    {
      ok := Perform(Call.SetMdmModulation(modulation));
    }

    method SetMdmDRate(baud: int) returns (ok: bool)
      modifies this
      ensures trace == old(trace) + [Event(Call.SetMdmDRate(baud), ok)]
    {
      ok := Perform(Call.SetMdmDRate(baud));
    }

    method MakePktFLEN(length: int) returns (ok: bool)
      modifies this
      ensures trace == old(trace) + [Event(Call.MakePktFLEN(length), ok)]
    {
      ok := Perform(Call.MakePktFLEN(length));
    }

    method SetMdmSyncMode(mode: int) returns (ok: bool)
      modifies this
      ensures trace == old(trace) + [Event(Call.SetMdmSyncMode(mode), ok)]
    {
      ok := Perform(Call.SetMdmSyncMode(mode));
    }

    method RFxmit(data: seq<byte>) returns (ok: bool)
      modifies this
      ensures trace == old(trace) + [Event(Call.RFxmit(data), ok)]
    {
      ok := Perform(Call.RFxmit(data));
    }

    method SetModeIDLE() returns (ok: bool)
      modifies this
      ensures trace == old(trace) + [Event(Call.SetModeIDLE, ok)]
    {
      ok := Perform(Call.SetModeIDLE);
    }

    method Cleanup() returns (ok: bool)
      modifies this
      ensures trace == old(trace) + [Event(Call.Cleanup, ok)]
    {
      ok := Perform(Call.Cleanup);
    }
  }
}
