/**
 * `handleSpectrumEvent`: the host turns each 6-byte input record from the
 * Spectrum (last key, button bits, pointer x and y) into VNC key and pointer
 * events, comparing it with the record it saw before.  The VNC sends become
 * events appended to a log.
 */
module HostEvents {
  import opened Bytes

  /** `struct read_spectrum`. */
  datatype Record = Record(ch: byte, but: byte, x: u16, y: u16)

  /** What the handler sends: `SendKeyEvent(cl, code, down)` or `SendPointerEvent(cl, x, y, mask)`. */
  datatype Event = Key(code: byte, down: bool) | Pointer(x: u16, y: u16, mask: byte)

  /** The RFB button masks (bits 0, 1 and 2 for buttons 1, 2 and 3, section 7.5.5 of RFC 6143). */
  const Button1Mask: byte := 1
  const Button2Mask: byte := 2
  const Button3Mask: byte := 4

  /** The pointer mask built from the record's button byte, one bit at a time. */
  function ButtonMask(but: byte): (m: byte)
    ensures m == but % 8
  {
    (if but % 2 == 1 then Button1Mask else 0)
    + (if (but / 2) % 2 == 1 then Button2Mask else 0)
    + (if (but / 4) % 2 == 1 then Button3Mask else 0)
  }

  predicate PointerMoved(prev: Record, e: Record)
  {
    e.x != prev.x || e.y != prev.y || e.but != prev.but
  }

  /**
   * The events one call sends, given the previous record: a key event when
   * the key changed (up for the old key when the new one is 0, else down for
   * the new one), then a pointer event when x, y or the buttons changed.
   */
  function Synthesize(prev: Record, e: Record): (evs: seq<Event>)
    ensures |evs| == (if e.ch != prev.ch then 1 else 0) + (if PointerMoved(prev, e) then 1 else 0)
    ensures e.ch != prev.ch ==> evs[0] == (if e.ch == 0 then Key(prev.ch, false) else Key(e.ch, true))
    ensures PointerMoved(prev, e) ==> evs[|evs| - 1] == Pointer(e.x, e.y, e.but % 8)
    ensures forall ev :: ev in evs && ev.Key? ==> e.ch != prev.ch
  {
    (if e.ch != prev.ch then [if e.ch == 0 then Key(prev.ch, false) else Key(e.ch, true)] else [])
    + (if PointerMoved(prev, e) then [Pointer(e.x, e.y, ButtonMask(e.but))] else [])
  }

  /** A call sends nothing exactly when the record equals the previous one. */
  lemma SilentIffRepeat(prev: Record, e: Record)
    ensures Synthesize(prev, e) == [] <==> prev == e
  {
    if prev != e && e.ch == prev.ch {
      assert PointerMoved(prev, e);
    }
  }

  /** The handler with its static `old` record and the log of what it sent. */
  class EventHandler {
    var prev: Record
    var sent: seq<Event>

    /** `static struct read_spectrum old = {0}`. */
    constructor ()
      ensures prev == Record(0, 0, 0, 0) && sent == []
    {
      prev := Record(0, 0, 0, 0);
      sent := [];
    }

    /** One call of `handleSpectrumEvent`. */
    method Handle(e: Record)
      modifies this
      ensures prev == e
      ensures sent == old(sent) + Synthesize(old(prev), e)
    {
      if e.ch != prev.ch {
        if e.ch == 0 {
          sent := sent + [Key(prev.ch, false)];
        } else {
          sent := sent + [Key(e.ch, true)];
        }
      }
      if e.x != prev.x || e.y != prev.y || e.but != prev.but {
        var b := ButtonMask(e.but);
        sent := sent + [Pointer(e.x, e.y, b)];
      }
      prev := e;
    }
  }

  /** The events a run of records sends, starting from the previous record `start`. */
  function Sent(start: Record, rs: seq<Record>): seq<Event>
    decreases |rs|
  {
    if |rs| == 0 then [] else Synthesize(start, rs[0]) + Sent(rs[0], rs[1..])
  }

  /** The last record of a run, or `start` for an empty run. */
  function Last(start: Record, rs: seq<Record>): Record
  {
    if |rs| == 0 then start else rs[|rs| - 1]
  }

  /** The keys held down after one event: a key event presses or releases its key. */
  function Apply(ev: Event, held: set<byte>): set<byte>
  {
    match ev
    case Key(c, down) => if down then held + {c} else held - {c}
    case Pointer(_, _, _) => held
  }

  /** The keys the VNC server holds down after a sequence of events, starting from `held`. */
  function Held(evs: seq<Event>, held: set<byte>): set<byte>
    decreases |evs|
  {
    if |evs| == 0 then held else Held(evs[1..], Apply(evs[0], held))
  }

  lemma {:induction false} HeldAppend(a: seq<Event>, b: seq<Event>, held: set<byte>)
    ensures Held(a + b, held) == Held(b, Held(a, held))
    decreases |a|
  {
    if |a| > 0 {
      assert (a + b)[0] == a[0] && (a + b)[1..] == a[1..] + b;
      HeldAppend(a[1..], b, Apply(a[0], held));
    } else {
      assert a + b == b;
    }
  }

  /** The keys the Spectrum reports as pressed by a record: none for 0, else `ch`. */
  function KeySet(ch: byte): (k: set<byte>)
    ensures ch != 0 ==> k == {ch}
    ensures ch == 0 <==> k == {}
  {
    if ch == 0 then {} else {ch}
  }

  /**
   * A change from one key straight to another presses the new key and never
   * releases the old one, so the server goes on holding it.
   */
  lemma KeyToKeyNeverReleases(prev: Record, e: Record)
    requires prev.ch != 0 && e.ch != 0 && prev.ch != e.ch
    ensures Key(prev.ch, false) !in Synthesize(prev, e)
    ensures Held(Synthesize(prev, e), KeySet(prev.ch)) == {prev.ch, e.ch}
  {
    var evs := Synthesize(prev, e);
    var held := {prev.ch, e.ch};
    if PointerMoved(prev, e) {
      var p := Pointer(e.x, e.y, e.but % 8);
      assert evs == [Key(e.ch, true), p];
      assert evs[1..] == [p] && evs[1..][1..] == [];
      assert Apply(evs[0], KeySet(prev.ch)) == held;
      assert Held(evs, KeySet(prev.ch)) == Held([p], held);
      assert Held([p], held) == Held([], Apply(p, held));
    } else {
      assert evs == [Key(e.ch, true)];
      assert evs[1..] == [];
    }
  }

  /** Pressing 'A', then 'B', then releasing everything leaves 'A' held down on the server. */
  lemma StuckKey()
    ensures var rs := [Record(65, 0, 0, 0), Record(66, 0, 0, 0), Record(0, 0, 0, 0)];
            && Held(Sent(Record(0, 0, 0, 0), rs), {}) == {65}
            && KeySet(Last(Record(0, 0, 0, 0), rs).ch) == {}
  {
    var r0, r1, r2, r3 := Record(0, 0, 0, 0), Record(65, 0, 0, 0), Record(66, 0, 0, 0), Record(0, 0, 0, 0);
    var rs := [r1, r2, r3];
    assert rs[1..] == [r2, r3] && rs[1..][1..] == [r3] && rs[1..][1..][1..] == [];
    assert Sent(r2, [r3]) == [Key(66, false)];
    assert Sent(r1, [r2, r3]) == [Key(66, true), Key(66, false)];
    assert Sent(r0, rs) == [Key(65, true), Key(66, true), Key(66, false)];
    var evs := [Key(65, true), Key(66, true), Key(66, false)];
    assert evs[1..] == [Key(66, true), Key(66, false)] && evs[1..][1..] == [Key(66, false)];
    assert [Key(66, false)][1..] == [];
    assert Held([Key(66, false)], {65, 66}) == {65, 66} - {66} == {65};
    assert Held(evs[1..], {65}) == Held([Key(66, false)], {65, 66});
  }

  /** The intended handler: a key change first releases the old key, then presses the new one. */
  function SynthesizeFixed(prev: Record, e: Record): (evs: seq<Event>)
    ensures e.ch == 0 || prev.ch == 0 || e.ch == prev.ch ==> evs == Synthesize(prev, e)
    ensures Held(evs, KeySet(prev.ch)) == KeySet(e.ch)
  {
    var release := if e.ch != prev.ch && prev.ch != 0 then [Key(prev.ch, false)] else [];
    var press := if e.ch != prev.ch && e.ch != 0 then [Key(e.ch, true)] else [];
    var pointer := if PointerMoved(prev, e) then [Pointer(e.x, e.y, ButtonMask(e.but))] else [];
    HeldAppend(release, press + pointer, KeySet(prev.ch));
    HeldAppend(press, pointer, Held(release, KeySet(prev.ch)));
    assert release + (press + pointer) == release + press + pointer;
    release + press + pointer
  }

  function SentFixed(start: Record, rs: seq<Record>): seq<Event>
    decreases |rs|
  {
    if |rs| == 0 then [] else SynthesizeFixed(start, rs[0]) + SentFixed(rs[0], rs[1..])
  }

  /** With the fix, the keys held on the server are always exactly the key the Spectrum reports. */
  lemma {:induction false} FixedHeldIsCurrent(start: Record, rs: seq<Record>)
    ensures Held(SentFixed(start, rs), KeySet(start.ch)) == KeySet(Last(start, rs).ch)
    decreases |rs|
  {
    if |rs| > 0 {
      HeldAppend(SynthesizeFixed(start, rs[0]), SentFixed(rs[0], rs[1..]), KeySet(start.ch));
      FixedHeldIsCurrent(rs[0], rs[1..]);
      if |rs| > 1 {
        assert rs[1..][|rs[1..]| - 1] == rs[|rs| - 1];
      }
    }
  }
}
