/**
 * The Spectrum side's poke decoder.  Each receive appends up to 1497 bytes
 * to `bufor` after the `pos` bytes kept from the previous round; the loop
 * then walks the buffer in 3-byte groups (a little-endian address, then a
 * value) and writes each value to its address.  A poke is modelled as the
 * (address, value) pair it writes, appended to a log.
 */
module Pokes {
  import opened Bytes

  /** `sizeof(bufor)` */
  const BufSize: nat := 1500

  /** The length passed to `recv`. */
  const RecvMax: nat := 1497

  datatype Poke = Poke(addr: u16, value: byte)

  /** The group starting at offset k: `*(void **)s` read as a little-endian 16-bit address, then the value. */
  function GroupAt(buf: seq<byte>, k: nat): (p: Poke)
    requires k + 3 <= |buf|
    ensures p.addr % 0x100 == buf[k] && p.addr / 0x100 == buf[k + 1] && p.value == buf[k + 2]
  {
    Poke(buf[k] as int + 0x100 * buf[k + 1] as int, buf[k + 2])
  }

  /** The number of passes of `for (s = bufor; r > 0; r -= 3)` over n bytes: n/3 rounded up. */
  function Passes(n: nat): (g: nat)
    ensures 3 * g >= n && 3 * g < n + 3
  {
    (n + 2) / 3
  }

  /** The pokes the loop applies to the first n bytes of `buf`, a trailing partial group included. */
  function Applied(buf: seq<byte>, n: nat): (ps: seq<Poke>)
    requires 3 * Passes(n) <= |buf|
    ensures |ps| == Passes(n)
    ensures forall g :: 0 <= g < |ps| ==> ps[g] == GroupAt(buf, 3 * g)
  {
    seq(Passes(n), g requires 0 <= g < Passes(n) => GroupAt(buf, 3 * g))
  }

  /** A byte of memory at offset k from `bufor`; past its end, whatever `beyond` says lies there. */
  function ByteAt(buf: seq<byte>, beyond: nat -> byte, k: nat): byte
  {
    if k < |buf| then buf[k] else beyond(k)
  }

  /** The decoder's state as a value: the buffer and the count of carried bytes. */
  datatype Rx = Rx(buf: seq<byte>, pos: nat)

  ghost predicate IsRx(st: Rx)
  {
    |st.buf| == BufSize && st.pos <= 2
  }

  /** `bufor` after `recv` wrote `data` at `pos`. */
  function Filled(st: Rx, data: seq<byte>): (buf: seq<byte>)
    requires IsRx(st) && |data| <= RecvMax
    ensures |buf| == BufSize
    ensures buf[..st.pos] == st.buf[..st.pos] && buf[st.pos..st.pos + |data|] == data
    ensures buf[st.pos + |data|..] == st.buf[st.pos + |data|..]
  {
    st.buf[..st.pos] + data + st.buf[st.pos + |data|..]
  }

  /**
   * `bufor` after the loop over n bytes: unchanged when n is a multiple of 3,
   * else with its first two bytes replaced by the two bytes after the last
   * group the loop applied (which may lie past the end of `bufor`).
   */
  function Carried(buf: seq<byte>, n: nat, beyond: nat -> byte): (kept: seq<byte>)
    requires |buf| == BufSize
    ensures |kept| == BufSize && kept[2..] == buf[2..]
    ensures n % 3 == 0 ==> kept == buf
    ensures n % 3 != 0 ==> kept[0] == ByteAt(buf, beyond, 3 * Passes(n)) && kept[1] == ByteAt(buf, beyond, 3 * Passes(n) + 1)
  {
    if n % 3 == 0 then buf
    else buf[0 := ByteAt(buf, beyond, 3 * Passes(n))][1 := ByteAt(buf, beyond, 3 * Passes(n) + 1)]
  }

  /**
   * One round as written: receive `data` at `pos`, apply ceil(n/3) groups,
   * then keep n mod 3 and copy the two bytes after the last group to the front.
   */
  function Receive(st: Rx, data: seq<byte>, beyond: nat -> byte): (r: (Rx, seq<Poke>))
    requires IsRx(st) && |data| <= RecvMax
    ensures IsRx(r.0)
    ensures r.0.pos == (st.pos + |data|) % 3
    ensures |r.1| == Passes(st.pos + |data|)
  {
    var n := st.pos + |data|;
    (Rx(Carried(Filled(st, data), n, beyond), n % 3), Applied(Filled(st, data), n))
  }

  /** One byte of `bufor` after `recv`. */
  lemma FilledAt(st: Rx, data: seq<byte>, k: int)
    requires IsRx(st) && |data| <= RecvMax && 0 <= k < BufSize
    ensures Filled(st, data)[k] == if k < st.pos then st.buf[k] else if k < st.pos + |data| then data[k - st.pos] else st.buf[k]
  {
    var f := Filled(st, data);
    if k < st.pos {
      assert f[k] == f[..st.pos][k];
    } else if k < st.pos + |data| {
      assert f[k] == f[st.pos..st.pos + |data|][k - st.pos];
    } else {
      assert f[k] == f[st.pos + |data|..][k - st.pos - |data|];
    }
  }

  /** The loop runs over whole groups when n is a multiple of 3, else over one group more. */
  lemma PassesMod(n: nat)
    ensures n % 3 == 0 ==> 3 * Passes(n) == n
    ensures n % 3 != 0 ==> 3 * Passes(n) == n - n % 3 + 3
  {
  }

  lemma ReceiveIs(st: Rx, data: seq<byte>, beyond: nat -> byte)
    requires IsRx(st) && |data| <= RecvMax
    ensures var n := st.pos + |data|;
            Receive(st, data, beyond) == (Rx(Carried(Filled(st, data), n, beyond), n % 3), Applied(Filled(st, data), n))
  {
  }

  /** The receive length keeps every `recv` inside `bufor`: pos + 1497 <= 1500. */
  lemma RecvFits(st: Rx)
    requires IsRx(st)
    ensures st.pos + RecvMax <= BufSize
  {
  }

  /** A group split over two receives: its first byte arrives with 4 bytes, the rest with the next 2. */
  lemma SplitPokeMisdirected(beyond: nat -> byte)
    ensures var st0 := Rx(seq(BufSize, _ => 0), 0);
            var (st1, ps1) := Receive(st0, [0x00, 0x40, 7, 0x01], beyond);
            var (st2, ps2) := Receive(st1, [0x50, 9], beyond);
            && ps1 == [Poke(0x4000, 7), Poke(0x0001, 0)]
            && ps2 == [Poke(0x5000, 9)]
  {
    var st0 := Rx(seq(BufSize, _ => 0), 0);
    assert st0.buf[4] == 0 && st0.buf[5] == 0 && st0.buf[6] == 0;
    SplitFirstHalf(st0, beyond);
    SplitSecondHalf(Receive(st0, [0x00, 0x40, 7, 0x01], beyond).0, beyond);
  }

  /** The first half: four bytes on a buffer with zeros after them run two groups, the second half-formed from stale zeros. */
  lemma SplitFirstHalf(st: Rx, beyond: nat -> byte)
    requires IsRx(st) && st.pos == 0 && st.buf[4] == 0 && st.buf[5] == 0 && st.buf[6] == 0
    ensures var (st1, ps1) := Receive(st, [0x00, 0x40, 7, 0x01], beyond);
            && ps1 == [Poke(0x4000, 7), Poke(0x0001, 0)]
            && st1.pos == 1 && st1.buf[0] == 0
  {
    var d: seq<byte> := [0x00, 0x40, 7, 0x01];
    ReceiveIs(st, d, beyond);
    forall k | 0 <= k < 7
      ensures Filled(st, d)[k] == [0x00, 0x40, 7, 0x01, 0, 0, 0][k]
    {
      FilledAt(st, d, k);
    }
    FourBytes(Filled(st, d), beyond);
  }

  lemma FourBytes(buf: seq<byte>, beyond: nat -> byte)
    requires |buf| == BufSize && buf[0] == 0 && buf[1] == 0x40 && buf[2] == 7 && buf[3] == 1
    requires buf[4] == 0 && buf[5] == 0 && buf[6] == 0
    ensures Applied(buf, 4) == [Poke(0x4000, 7), Poke(0x0001, 0)]
    ensures Carried(buf, 4, beyond)[0] == 0
  {
    assert Passes(4) == 2;
    assert Applied(buf, 4) == [GroupAt(buf, 0), GroupAt(buf, 3)];
  }

  /** The second half: with one byte 0 kept, the two bytes received complete a group at the wrong address. */
  lemma SplitSecondHalf(st: Rx, beyond: nat -> byte)
    requires IsRx(st) && st.pos == 1 && st.buf[0] == 0
    ensures Receive(st, [0x50, 9], beyond).1 == [Poke(0x5000, 9)]
  {
    var d: seq<byte> := [0x50, 9];
    ReceiveIs(st, d, beyond);
    var filled := Filled(st, d);
    assert filled[0] == 0 && filled[1] == 0x50 && filled[2] == 9;
    assert Passes(3) == 1;
    assert Applied(filled, 3) == [GroupAt(filled, 0)];
  }

  /**
   * With one byte kept and a full receive, 1498 bytes are decoded as 500
   * groups and the two bytes carried to the front are read past the end of
   * `bufor`.
   */
  lemma CarryReadsPastBuffer(st: Rx, data: seq<byte>, beyond: nat -> byte)
    requires IsRx(st) && st.pos == 1 && |data| == RecvMax
    ensures var (st', ps) := Receive(st, data, beyond);
            && |ps| == 500 && st'.pos == 1
            && st'.buf[0] == beyond(BufSize) && st'.buf[1] == beyond(BufSize + 1)
  {
    assert Passes(1 + RecvMax) == 500;
  }

  /** The intended decoding: only whole groups of the bytes received so far. */
  function Whole(bytes: seq<byte>): (ps: seq<Poke>)
    ensures |ps| == |bytes| / 3
    ensures forall g :: 0 <= g < |ps| ==> ps[g] == GroupAt(bytes, 3 * g)
  {
    seq(|bytes| / 3, g requires 0 <= g < |bytes| / 3 => GroupAt(bytes, 3 * g))
  }

  /** Decoding whole groups does not depend on where a stream is cut, as long as the cut falls between groups. */
  lemma WholeAppend(a: seq<byte>, b: seq<byte>)
    requires |a| % 3 == 0
    ensures Whole(a + b) == Whole(a) + Whole(b)
  {
    var l, r := Whole(a + b), Whole(a) + Whole(b);
    assert |l| == |r|;
    forall g | 0 <= g < |l|
      ensures l[g] == r[g]
    {
      if g < |a| / 3 {
        assert (a + b)[3 * g] == a[3 * g] && (a + b)[3 * g + 1] == a[3 * g + 1] && (a + b)[3 * g + 2] == a[3 * g + 2];
      } else {
        var h := g - |a| / 3;
        assert 3 * g == |a| + 3 * h;
        assert (a + b)[3 * g] == b[3 * h] && (a + b)[3 * g + 1] == b[3 * h + 1] && (a + b)[3 * g + 2] == b[3 * h + 2];
      }
    }
  }

  /**
   * The intended round: the kept bytes followed by the new ones are decoded
   * in whole groups, and the incomplete tail (fewer than 3 bytes) is kept.
   */
  function ReceiveWhole(carry: seq<byte>, data: seq<byte>): (r: (seq<byte>, seq<Poke>))
    ensures |r.0| == (|carry| + |data|) % 3 && |r.0| <= 2
    ensures carry + data == (carry + data)[..|carry + data| - |r.0|] + r.0
  {
    var all := carry + data;
    var cut := 3 * (|all| / 3);
    (all[cut..], Whole(all[..cut]))
  }

  /** Pokes and carry after a run of receives with the intended round. */
  function ReceiveAll(carry: seq<byte>, chunks: seq<seq<byte>>): (seq<byte>, seq<Poke>)
    decreases |chunks|
  {
    if |chunks| == 0 then (carry, [])
    else
      var (c, ps) := ReceiveWhole(carry, chunks[0]);
      var (c', ps') := ReceiveAll(c, chunks[1..]);
      (c', ps + ps')
  }

  function Concat(chunks: seq<seq<byte>>): seq<byte>
    decreases |chunks|
  {
    if |chunks| == 0 then [] else chunks[0] + Concat(chunks[1..])
  }

  /** Whole groups of a prefix that ends on a group boundary are the first groups of the whole. */
  lemma WholeCut(all: seq<byte>)
    ensures Whole(all) == Whole(all[..3 * (|all| / 3)])
  {
    var cut := 3 * (|all| / 3);
    assert all == all[..cut] + all[cut..];
    WholeAppend(all[..cut], all[cut..]);
  }

  /** One intended round followed by the whole groups of what comes next. */
  lemma ReceiveWholeThen(carry: seq<byte>, data: seq<byte>, rest: seq<byte>)
    ensures ReceiveWhole(carry, data).1 + Whole(ReceiveWhole(carry, data).0 + rest) == Whole(carry + data + rest)
  {
    var all := carry + data;
    var cut := 3 * (|all| / 3);
    assert all + rest == all[..cut] + (all[cut..] + rest);
    WholeAppend(all[..cut], all[cut..] + rest);
  }

  /**
   * However the stream is split into receives, the intended decoder applies
   * exactly the whole groups of the concatenated stream, in order, and keeps
   * its incomplete tail.
   */
  lemma {:induction false} ReceiveAllIsWhole(carry: seq<byte>, chunks: seq<seq<byte>>)
    requires |carry| < 3
    ensures ReceiveAll(carry, chunks).1 == Whole(carry + Concat(chunks))
    ensures |ReceiveAll(carry, chunks).0| == |carry + Concat(chunks)| % 3
    decreases |chunks|
  {
    if |chunks| == 0 {
      assert carry + Concat(chunks) == carry;
    } else {
      var c := ReceiveWhole(carry, chunks[0]).0;
      var rest := Concat(chunks[1..]);
      ReceiveAllIsWhole(c, chunks[1..]);
      ReceiveWholeThen(carry, chunks[0], rest);
      assert Concat(chunks) == chunks[0] + rest;
      assert carry + Concat(chunks) == carry + chunks[0] + rest;
      assert |c| == (|carry| + |chunks[0]|) % 3;
      ModSum(|carry| + |chunks[0]|, |rest|);
      assert |c + rest| % 3 == |carry + Concat(chunks)| % 3;
    }
  }

  lemma ModSum(a: nat, b: nat)
    ensures (a % 3 + b) % 3 == (a + b) % 3
  {
    assert a == 3 * (a / 3) + a % 3;
  }

  lemma ConcatPair(a: seq<byte>, b: seq<byte>)
    ensures Concat([a, b]) == a + b
  {
    assert [a, b][1..] == [b] && [b][1..] == [];
    assert Concat([b]) == b + Concat([]);
  }

  /** The split group of `SplitPokeMisdirected`, decoded as intended: the second poke goes to 0x5001. */
  lemma SplitPokeWhole()
    ensures ReceiveAll([], [[0x00, 0x40, 7, 0x01], [0x50, 9]]).1 == [Poke(0x4000, 7), Poke(0x5001, 9)]
  {
    var c0: seq<byte> := [0x00, 0x40, 7, 0x01];
    var c1: seq<byte> := [0x50, 9];
    ReceiveAllIsWhole([], [c0, c1]);
    ConcatPair(c0, c1);
    var all := [] + Concat([c0, c1]);
    assert all == c0 + c1;
    assert |all| == 6;
    var ps := Whole(all);
    assert ps[0] == GroupAt(all, 0) == Poke(0x4000, 7);
    assert ps[1] == GroupAt(all, 3) == Poke(0x5001, 9);
  }

  /** `bufor`, `pos` and the log of pokes written. */
  class PokeReceiver {
    var bufor: array<byte>
    var pos: int
    var pokes: seq<Poke>

    ghost predicate Valid()
      reads this
    {
      bufor.Length == BufSize && 0 <= pos <= 2
    }

    function State(): (st: Rx)
      requires Valid()
      reads this, bufor
      ensures IsRx(st)
    {
      Rx(bufor[..], pos)
    }

    /** The globals as the program starts: `bufor` zero-filled, `pos` 0. */
    constructor ()
      ensures Valid() && fresh(bufor) && pokes == []
      ensures State() == Rx(seq(BufSize, _ => 0), 0)
    {
      bufor := new byte[BufSize](_ => 0);
      pos := 0;
      pokes := [];
    }

    /** `recv` writing `data` into `bufor` at `pos`. */
    method Recv(data: seq<byte>)
      requires Valid() && pos + |data| <= BufSize
      modifies bufor
      ensures bufor[..] == old(bufor[..])[..pos] + data + old(bufor[..])[pos + |data|..]
    {
      var i := 0;
      while i < |data|
        invariant 0 <= i <= |data|
        invariant forall j :: 0 <= j < BufSize ==> bufor[j] == if pos <= j < pos + i then data[j - pos] else old(bufor[j])
      {
        bufor[pos + i] := data[i];
        i := i + 1;
      }
      ghost var want := old(bufor[..])[..pos] + data + old(bufor[..])[pos + |data|..];
      assert forall j :: 0 <= j < BufSize ==> bufor[..][j] == want[j];
    }

    /** The `for` loop over the n bytes at the start of `bufor`: returns where `s` and `r` end. */
    method ApplyGroups(n: nat) returns (s: int, r: int)
      requires Valid() && n <= BufSize - 1
      modifies this
      ensures Valid() && bufor == old(bufor) && pos == old(pos)
      ensures s == 3 * Passes(n) && r == n - s
      ensures pokes == old(pokes) + Applied(bufor[..], n)
    {
      r := n;
      s := 0;
      ghost var k := 0;
      while r > 0
        invariant 0 <= k <= Passes(n) && s == 3 * k && r == n - s
        invariant Valid() && bufor == old(bufor) && pos == old(pos)
        invariant pokes == old(pokes) + Applied(bufor[..], n)[..k]
      {
        var where: u16 := bufor[s] as int + 0x100 * bufor[s + 1] as int;
        s := s + 2;
        pokes := pokes + [Poke(where, bufor[s])];
        s := s + 1;
        r := r - 3;
        k := k + 1;
        assert Applied(bufor[..], n)[..k] == Applied(bufor[..], n)[..k - 1] + [Applied(bufor[..], n)[k - 1]];
      }
      assert Applied(bufor[..], n)[..k] == Applied(bufor[..], n);
    }

    /** `*bufor = *s; *(bufor+1) = *(s+1);` with `s` at offset `at`. */
    method CopyTail(at: nat, beyond: nat -> byte)
      requires Valid()
      modifies bufor
      ensures bufor[..] == old(bufor[..])[0 := ByteAt(old(bufor[..]), beyond, at)][1 := ByteAt(old(bufor[..]), beyond, at + 1)]
    {
      var b0: byte := if at < BufSize then bufor[at] else beyond(at);
      var b1: byte := if at + 1 < BufSize then bufor[at + 1] else beyond(at + 1);
      bufor[0] := b0;
      bufor[1] := b1;
    }

    /** The end of the round: `pos` and the carried bytes, after the loop stopped at `s` with `r` left. */
    method Settle(s: int, r: int, ghost n: nat, ghost filled: seq<byte>, beyond: nat -> byte)
      requires Valid() && bufor[..] == filled
      requires s == 3 * Passes(n) && r == n - s && s >= 0
      modifies this, bufor
      ensures Valid() && bufor == old(bufor) && pokes == old(pokes)
      ensures pos == n % 3 && bufor[..] == Carried(filled, n, beyond)
    {
      PassesMod(n);
      pos := 0;
      if r < 0 {
        pos := r + 3;
        CopyTail(s, beyond);
      }
    }

    /** One round of the receive branch of `main`, after `recv` returned `data`. */
    method Round(data: seq<byte>, beyond: nat -> byte)
      requires Valid() && |data| <= RecvMax
      modifies this, bufor
      ensures Valid() && bufor == old(bufor)
      ensures State() == Receive(old(State()), data, beyond).0
      ensures pokes == old(pokes) + Receive(old(State()), data, beyond).1
    {
      ghost var st := State();
      ghost var n := |data| + pos;
      ReceiveIs(st, data, beyond);
      Recv(data);
      ghost var filled: seq<byte> := bufor[..];
      var s, r := ApplyGroups(|data| + pos);
      Settle(s, r, n, filled, beyond);
    }
  }
}
