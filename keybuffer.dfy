/**
 * The Spectrum's circular keyboard buffer: `kbuf[KBUFSZ]` with the write
 * position `bufoffset` (advanced by the interrupt routine `isr`) and the read
 * position `readoffset` (advanced by `getSingleKeypress`).  The buffer reads
 * as empty exactly when the two positions are equal; there is no overflow
 * guard.
 */
module KeyBuffer {
  import opened Bytes

  /** `KBUFSZ` */
  const Size: nat := 8

  /** The buffer as a value: its slots and the two positions. */
  datatype Ring = Ring(slots: seq<byte>, write: nat, read: nat)

  ghost predicate IsRing(v: Ring)
  {
    |v.slots| == Size && v.write < Size && v.read < Size
  }

  /** The keys not yet read, oldest first: the slots from `read` up to `write`, going round. */
  function Unread(v: Ring): (ks: seq<byte>)
    requires IsRing(v)
    ensures |ks| < Size
    ensures |ks| == 0 <==> v.read == v.write
  {
    seq((v.write - v.read) % Size, i requires 0 <= i => v.slots[(v.read + i) % Size])
  }

  /** `isr` with the key `k` read from the keyboard: a non-zero key is stored and `bufoffset` advances. */
  function Push(v: Ring, k: byte): (w: Ring)
    requires IsRing(v)
    ensures IsRing(w)
  {
    if k == 0 then v
    else Ring(v.slots[v.write := k], if v.write + 1 == Size then 0 else v.write + 1, v.read)
  }

  /** `getSingleKeypress`: 0 when empty, else the slot at `readoffset`, which advances. */
  function Pop(v: Ring): (r: (Ring, byte))
    requires IsRing(v)
    ensures IsRing(r.0)
  {
    if v.read == v.write then (v, 0)
    else (v.(read := if v.read + 1 == Size then 0 else v.read + 1), v.slots[v.read])
  }

  /**
   * `getSingleKeypress` tests `readoffset != bufoffset` before `di`, so `isr`
   * can run between the test and the read.  When the test saw a key, that
   * interleaving reads the same key and leaves the same buffer as the read
   * followed by `isr`: the push writes slot `bufoffset`, never `readoffset`.
   */
  lemma IsrAfterTestCommutes(v: Ring, k: byte)
    requires IsRing(v) && v.read != v.write
    ensures var w := Push(v, k);
            var next := if v.read + 1 == Size then 0 else v.read + 1;
            w.slots[v.read] == Pop(v).1 && w.(read := next) == Push(Pop(v).0, k)
  {
  }

  /** The number of unread keys, without the modulo. */
  lemma UnreadCount(v: Ring)
    requires IsRing(v)
    ensures |Unread(v)| == if v.write >= v.read then v.write - v.read else v.write - v.read + Size
  {
  }

  /** The slot i places after `read`, without the modulo. */
  lemma SlotAfter(v: Ring, i: int)
    requires IsRing(v) && 0 <= i < Size
    ensures (v.read + i) % Size == if v.read + i < Size then v.read + i else v.read + i - Size
  {
  }

  /** A zero key changes nothing; a non-zero key joins the end of the unread keys unless 7 were waiting. */
  lemma PushUnread(v: Ring, k: byte)
    requires IsRing(v)
    ensures k == 0 ==> Push(v, k) == v
    ensures k != 0 && |Unread(v)| < Size - 1 ==> Unread(Push(v, k)) == Unread(v) + [k]
    ensures k != 0 && |Unread(v)| == Size - 1 ==> Unread(Push(v, k)) == []
  {
    if k != 0 {
      var w := Push(v, k);
      var n := |Unread(v)|;
      UnreadCount(v);
      UnreadCount(w);
      if n < Size - 1 {
        assert |Unread(w)| == n + 1;
        forall i | 0 <= i < n + 1
          ensures Unread(w)[i] == (Unread(v) + [k])[i]
        {
          SlotAfter(v, i);
          if i < n {
            assert (v.read + i) % Size != v.write;
          } else {
            assert (v.read + i) % Size == v.write;
          }
        }
      }
    }
  }

  /** Reading from an empty buffer gives 0 and changes nothing; otherwise it gives the oldest key and drops it. */
  lemma PopUnread(v: Ring)
    requires IsRing(v)
    ensures |Unread(v)| == 0 ==> Pop(v) == (v, 0)
    ensures |Unread(v)| > 0 ==> Pop(v).1 == Unread(v)[0] && Unread(Pop(v).0) == Unread(v)[1..]
  {
    if |Unread(v)| > 0 {
      var w := Pop(v).0;
      UnreadCount(v);
      UnreadCount(w);
      assert |Unread(w)| == |Unread(v)| - 1;
      forall i | 0 <= i < |Unread(w)|
        ensures Unread(w)[i] == Unread(v)[1..][i]
      {
        SlotAfter(w, i);
        SlotAfter(v, i + 1);
      }
    }
  }

  /** Pushing each key of `ks` in turn. */
  function PushAll(v: Ring, ks: seq<byte>): (w: Ring)
    requires IsRing(v)
    ensures IsRing(w)
    decreases |ks|
  {
    if |ks| == 0 then v else PushAll(Push(v, ks[0]), ks[1..])
  }

  /** Popping n times, collecting what each read returns. */
  function PopAll(v: Ring, n: nat): (r: (Ring, seq<byte>))
    requires IsRing(v)
    ensures IsRing(r.0) && |r.1| == n
    decreases n
  {
    if n == 0 then (v, [])
    else
      var (w, k) := Pop(v);
      var (u, rest) := PopAll(w, n - 1);
      (u, [k] + rest)
  }

  /** While fewer than 8 keys wait, non-zero keys pushed join the unread keys in order. */
  lemma {:induction false} PushAllUnread(v: Ring, ks: seq<byte>)
    requires IsRing(v) && |Unread(v)| + |ks| < Size
    requires forall i :: 0 <= i < |ks| ==> ks[i] != 0
    ensures Unread(PushAll(v, ks)) == Unread(v) + ks
    decreases |ks|
  {
    if |ks| > 0 {
      PushUnread(v, ks[0]);
      PushAllUnread(Push(v, ks[0]), ks[1..]);
      assert Unread(v) + [ks[0]] + ks[1..] == Unread(v) + ks;
    }
  }

  /** Reading n keys returns the n oldest unread keys, in order. */
  lemma {:induction false} PopAllUnread(v: Ring, n: nat)
    requires IsRing(v) && n <= |Unread(v)|
    ensures PopAll(v, n).1 == Unread(v)[..n]
    ensures Unread(PopAll(v, n).0) == Unread(v)[n..]
    decreases n
  {
    if n > 0 {
      PopUnread(v);
      var w := Pop(v).0;
      PopAllUnread(w, n - 1);
      assert Unread(v)[..n] == [Unread(v)[0]] + Unread(v)[1..][..n - 1];
      assert Unread(v)[n..] == Unread(v)[1..][n - 1..];
    }
  }

  /**
   * First in, first out: from an empty buffer, up to 7 non-zero keys pushed
   * are read back in the order they were pushed, after which the buffer is empty.
   */
  lemma Fifo(v: Ring, ks: seq<byte>)
    requires IsRing(v) && v.read == v.write && |ks| < Size
    requires forall i :: 0 <= i < |ks| ==> ks[i] != 0
    ensures PopAll(PushAll(v, ks), |ks|).1 == ks
    ensures Unread(PopAll(PushAll(v, ks), |ks|).0) == []
  {
    PushAllUnread(v, ks);
    PopAllUnread(PushAll(v, ks), |ks|);
  }

  /** Eight keys pushed without a read bring `bufoffset` back to `readoffset`: all eight are lost. */
  lemma EightPushesLookEmpty(v: Ring, ks: seq<byte>)
    requires IsRing(v) && v.read == v.write && |ks| == Size
    requires forall i :: 0 <= i < |ks| ==> ks[i] != 0
    ensures Unread(PushAll(v, ks)) == []
    ensures Pop(PushAll(v, ks)).1 == 0
  {
    var first := ks[..Size - 1];
    PushAllUnread(v, first);
    PushAllThen(v, first, ks[Size - 1]);
    assert first + [ks[Size - 1]] == ks;
    PushUnread(PushAll(v, first), ks[Size - 1]);
  }

  /** Pushing a run and then one more key is pushing the longer run. */
  lemma {:induction false} PushAllThen(v: Ring, ks: seq<byte>, k: byte)
    requires IsRing(v)
    ensures PushAll(v, ks + [k]) == Push(PushAll(v, ks), k)
    decreases |ks|
  {
    if |ks| == 0 {
      assert [] + [k] == [k];
      assert [k][1..] == [];
    } else {
      assert (ks + [k])[0] == ks[0] && (ks + [k])[1..] == ks[1..] + [k];
      PushAllThen(Push(v, ks[0]), ks[1..], k);
    }
  }

  /** The buffer never holds a zero key, so a 0 from `getSingleKeypress` always means "empty". */
  ghost predicate NoZeroKey(v: Ring)
    requires IsRing(v)
  {
    forall i :: 0 <= i < |Unread(v)| ==> Unread(v)[i] != 0
  }

  lemma NoZeroKeyKept(v: Ring, k: byte)
    requires IsRing(v) && NoZeroKey(v)
    ensures NoZeroKey(Push(v, k)) && NoZeroKey(Pop(v).0)
    ensures Pop(v).1 == 0 <==> |Unread(v)| == 0
  {
    PushUnread(v, k);
    PopUnread(v);
    if |Unread(v)| > 0 {
      assert Unread(v)[0] != 0;
    }
  }

  /** The global buffer and its two offsets. */
  class KeyboardBuffer {
    var kbuf: array<byte>
    var bufoffset: int
    var readoffset: int

    ghost predicate Valid()
      reads this
    {
      kbuf.Length == Size && 0 <= bufoffset < Size && 0 <= readoffset < Size
    }

    /** The buffer's state as a value. */
    function View(): (v: Ring)
      requires Valid()
      reads this, kbuf
      ensures IsRing(v)
    {
      Ring(kbuf[..], bufoffset, readoffset)
    }

    /** The globals as the program starts: zero-filled. */
    constructor ()
      ensures Valid() && fresh(kbuf)
      ensures View() == Ring(seq(Size, _ => 0), 0, 0)
    {
      kbuf := new byte[Size](_ => 0);
      bufoffset := 0;
      readoffset := 0;
    }

    /** The buffer reset of `inputinit`: `kbuf` zeroed and both offsets 0. */
    method Reset()
      requires Valid()
      modifies this, kbuf
      ensures Valid() && kbuf == old(kbuf)
      ensures View() == Ring(seq(Size, _ => 0), 0, 0)
    {
      var i := 0;
      while i < Size
        invariant 0 <= i <= Size && Valid() && kbuf == old(kbuf)
        invariant forall j :: 0 <= j < i ==> kbuf[j] == 0
      {
        kbuf[i] := 0;
        i := i + 1;
      }
      bufoffset := 0;
      readoffset := 0;
    }

    /** The body of `isr`, given the key `in_GetKey` returned. */
    method Isr(k: byte)
      requires Valid()
      modifies this, kbuf
      ensures Valid() && kbuf == old(kbuf)
      ensures View() == Push(old(View()), k)
    {
      if k != 0 {
        kbuf[bufoffset] := k;
        bufoffset := bufoffset + 1;
        if bufoffset == Size {
          bufoffset := 0;
        }
      }
    }

    /** `getSingleKeypress`. */
    method GetSingleKeypress() returns (k: byte)
      requires Valid()
      modifies this
      ensures Valid() && kbuf == old(kbuf)
      ensures (View(), k) == Pop(old(View()))
    {
      k := 0;
      if readoffset != bufoffset {
        k := kbuf[readoffset];
        readoffset := readoffset + 1;
        if readoffset == Size {
          readoffset := 0;
        }
      }
    }
  }
}
