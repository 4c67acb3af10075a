/**
 * The Spectrum's input telemetry: each pass of `main` samples the last key,
 * the mouse buttons and the mouse position, and sends the 6-byte
 * `send_buffer` only when the sample differs from what it last sent.  The
 * host reads the same 6 bytes as its `struct read_spectrum`; both machines
 * are little-endian, so the 16-bit coordinates travel low byte first.
 */
module Telemetry {
  import opened Bytes
  import opened HostEvents

  /** `sizeof(send_buffer)`: two bytes and two 16-bit words. */
  const RecordSize: nat := 6

  /** The bytes of `send_buffer` in memory order. */
  function Encode(r: Record): (bs: seq<byte>)
    ensures |bs| == RecordSize
  {
    [r.ch, r.but, r.x % 0x100, r.x / 0x100, r.y % 0x100, r.y / 0x100]
  }

  /** The host's view of 6 received bytes as `struct read_spectrum`. */
  function Decode(bs: seq<byte>): (r: Record)
    requires |bs| == RecordSize
  {
    Record(bs[0], bs[1], bs[2] as int + 0x100 * bs[3] as int, bs[4] as int + 0x100 * bs[5] as int)
  }

  lemma DecodeEncode(r: Record)
    ensures Decode(Encode(r)) == r
  {
  }

  lemma EncodeDecode(bs: seq<byte>)
    requires |bs| == RecordSize
    ensures Encode(Decode(bs)) == bs
  {
  }

  /** A run of records as a byte stream, one record after the other. */
  function EncodeAll(rs: seq<Record>): (bs: seq<byte>)
    ensures |bs| == RecordSize * |rs|
    decreases |rs|
  {
    if |rs| == 0 then [] else Encode(rs[0]) + EncodeAll(rs[1..])
  }

  /** A byte stream cut into 6-byte records. */
  function DecodeAll(bs: seq<byte>): (rs: seq<Record>)
    requires |bs| % RecordSize == 0
    ensures |rs| == |bs| / RecordSize
    decreases |bs|
  {
    if |bs| == 0 then [] else [Decode(bs[..RecordSize])] + DecodeAll(bs[RecordSize..])
  }

  /** The host reads back exactly the records the Spectrum sent, in order. */
  lemma {:induction false} DecodeAllEncodeAll(rs: seq<Record>)
    ensures DecodeAll(EncodeAll(rs)) == rs
    decreases |rs|
  {
    if |rs| > 0 {
      var bs := EncodeAll(rs);
      assert bs[..RecordSize] == Encode(rs[0]) && bs[RecordSize..] == EncodeAll(rs[1..]);
      DecodeEncode(rs[0]);
      DecodeAllEncodeAll(rs[1..]);
    }
  }

  /** The samples that are sent, given the last one sent: each that differs from its predecessor. */
  function Transmitted(last: Record, samples: seq<Record>): (ts: seq<Record>)
    ensures |ts| <= |samples|
    ensures forall i :: 0 <= i < |ts| ==> ts[i] in samples
    decreases |samples|
  {
    if |samples| == 0 then []
    else if samples[0] == last then Transmitted(last, samples[1..])
    else [samples[0]] + Transmitted(samples[0], samples[1..])
  }

  /** The record the sender holds after a run of samples: the last sample, or `last` if there was none. */
  function Latest(last: Record, samples: seq<Record>): Record
  {
    if |samples| == 0 then last else samples[|samples| - 1]
  }

  /** No record is sent twice in a row, and the first one differs from what was sent before. */
  lemma {:induction false} TransmittedChanges(last: Record, samples: seq<Record>)
    ensures var ts := Transmitted(last, samples);
            (|ts| > 0 ==> ts[0] != last) && forall i :: 0 < i < |ts| ==> ts[i - 1] != ts[i]
    decreases |samples|
  {
    if |samples| > 0 {
      var rest := samples[1..];
      if samples[0] == last {
        TransmittedChanges(last, rest);
      } else {
        TransmittedChanges(samples[0], rest);
        var ts := Transmitted(last, samples);
        assert ts == [samples[0]] + Transmitted(samples[0], rest);
        forall i | 0 < i < |ts|
          ensures ts[i - 1] != ts[i]
        {
          if i > 1 {
            assert ts[i - 1] == Transmitted(samples[0], rest)[i - 2];
          }
        }
      }
    }
  }

  /**
   * Leaving out repeated samples loses no event on the host: the host's
   * handler sends the same events for the transmitted records as it would
   * for every sample.
   */
  lemma {:induction false} FilterLosesNoEvents(last: Record, samples: seq<Record>)
    ensures Sent(last, Transmitted(last, samples)) == Sent(last, samples)
    decreases |samples|
  {
    if |samples| > 0 {
      var rest := samples[1..];
      if samples[0] == last {
        SilentIffRepeat(last, last);
        FilterLosesNoEvents(last, rest);
        assert Sent(last, samples) == [] + Sent(last, rest);
      } else {
        FilterLosesNoEvents(samples[0], rest);
        var ts := Transmitted(last, samples);
        assert ts[0] == samples[0] && ts[1..] == Transmitted(samples[0], rest);
      }
    }
  }

  /** Every record that is transmitted makes the host send at least one event. */
  lemma EveryTransmissionActs(last: Record, samples: seq<Record>, i: nat)
    requires i < |Transmitted(last, samples)|
    ensures var ts := Transmitted(last, samples);
            Synthesize(if i == 0 then last else ts[i - 1], ts[i]) != []
  {
    TransmittedChanges(last, samples);
    var ts := Transmitted(last, samples);
    SilentIffRepeat(if i == 0 then last else ts[i - 1], ts[i]);
  }

  /** `send_buffer` and the bytes that have gone out on the connection. */
  class Sender {
    var sendBuffer: Record
    var wire: seq<byte>

    /** `send_buffer` is a zero-initialised global. */
    constructor ()
      ensures sendBuffer == Record(0, 0, 0, 0) && wire == []
    {
      sendBuffer := Record(0, 0, 0, 0);
      wire := [];
    }

    /**
     * One pass of the sending half of `main`, given the sampled key, buttons
     * and position.  `accepts(t)` is how many bytes `send` takes when offered
     * `t`; the loop offers the rest until all 6 have gone.
     */
    method Poll(ch: byte, but: byte, x: u16, y: u16, accepts: nat -> nat)
      requires forall t :: 0 < t <= RecordSize ==> 0 < accepts(t) <= t
      modifies this
      ensures sendBuffer == Record(ch, but, x, y)
      ensures wire == old(wire) + (if Record(ch, but, x, y) == old(sendBuffer) then [] else Encode(sendBuffer))
    {
      if x == sendBuffer.x && y == sendBuffer.y && ch == sendBuffer.ch && but == sendBuffer.but {
        return;
      }
      sendBuffer := sendBuffer.(ch := ch);
      sendBuffer := sendBuffer.(but := but);
      sendBuffer := sendBuffer.(x := x);
      sendBuffer := sendBuffer.(y := y);
      var bytes := Encode(sendBuffer);
      var offset, toSend := 0, RecordSize;
      while toSend > 0
        invariant 0 <= offset <= RecordSize && toSend == RecordSize - offset
        invariant sendBuffer == Record(ch, but, x, y)
        invariant wire == old(wire) + bytes[..offset]
      {
        var r := accepts(toSend);
        wire := wire + bytes[offset..offset + r];
        assert bytes[..offset + r] == bytes[..offset] + bytes[offset..offset + r];
        toSend := toSend - r;
        offset := offset + r;
      }
      assert bytes[..RecordSize] == bytes;
    }
  }

  /** The stream a run of polls puts on the connection: the encodings of the transmitted samples. */
  lemma {:induction false} WireIsTransmitted(last: Record, samples: seq<Record>)
    ensures EncodeAll(Transmitted(last, samples)) == StreamOf(last, samples)
    decreases |samples|
  {
    if |samples| > 0 {
      WireIsTransmitted(if samples[0] == last then last else samples[0], samples[1..]);
      if samples[0] != last {
        var ts := Transmitted(last, samples);
        assert ts[0] == samples[0] && ts[1..] == Transmitted(samples[0], samples[1..]);
      }
    }
  }

  /** The bytes each poll adds in turn, as `Poll` states them, starting from the record last sent. */
  function StreamOf(last: Record, samples: seq<Record>): seq<byte>
    decreases |samples|
  {
    if |samples| == 0 then []
    else (if samples[0] == last then [] else Encode(samples[0])) + StreamOf(samples[0], samples[1..])
  }

  lemma {:induction false} StreamOfSnoc(last: Record, samples: seq<Record>, r: Record)
    ensures StreamOf(last, samples + [r]) == StreamOf(last, samples) + (if r == Latest(last, samples) then [] else Encode(r))
    decreases |samples|
  {
    if |samples| == 0 {
      assert [r][1..] == [];
    } else {
      assert (samples + [r])[0] == samples[0] && (samples + [r])[1..] == samples[1..] + [r];
      StreamOfSnoc(samples[0], samples[1..], r);
      if |samples| > 1 {
        assert samples[1..][|samples| - 2] == samples[|samples| - 1];
      }
    }
  }

  /**
   * The sending half of `main` over a run of samples: the connection carries
   * the encodings of the transmitted samples, and `send_buffer` ends up
   * holding the latest sample.
   */
  method PollAll(sender: Sender, samples: seq<Record>, accepts: nat -> nat)
    requires forall t :: 0 < t <= RecordSize ==> 0 < accepts(t) <= t
    modifies sender
    ensures sender.sendBuffer == Latest(old(sender.sendBuffer), samples)
    ensures sender.wire == old(sender.wire) + EncodeAll(Transmitted(old(sender.sendBuffer), samples))
  {
    ghost var start := sender.sendBuffer;
    var i := 0;
    while i < |samples|
      invariant 0 <= i <= |samples|
      invariant sender.sendBuffer == Latest(start, samples[..i])
      invariant sender.wire == old(sender.wire) + StreamOf(start, samples[..i])
    {
      var r := samples[i];
      StreamOfSnoc(start, samples[..i], r);
      sender.Poll(r.ch, r.but, r.x, r.y, accepts);
      assert samples[..i + 1] == samples[..i] + [r];
      i := i + 1;
    }
    assert samples[..i] == samples;
    WireIsTransmitted(start, samples);
  }
}
