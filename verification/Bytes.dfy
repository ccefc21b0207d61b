/** Little-endian numbers and bounds-checked reads of untrusted buffers. */
module Bytes {
  import opened Basics

  /** Size of the range `width` bytes can hold. */
  function Capacity(width: nat): (r: nat)
    ensures r >= 1
  {
    if width == 0 then 1 else 256 * Capacity(width - 1)
  }

  /** `v.to_le_bytes()`, keeping the low `width` bytes. */
  function Le(v: nat, width: nat): (r: seq<byte>)
    ensures |r| == width
    decreases width
  {
    if width == 0 then [] else [v % 256] + Le(v / 256, width - 1)
  }

  function FromLe(b: seq<byte>): (r: nat) {
    if b == [] then 0 else b[0] + 256 * FromLe(b[1..])
  }

  lemma {:induction false} LeRoundTrip(v: nat, width: nat)
    requires v < Capacity(width)
    ensures FromLe(Le(v, width)) == v
    decreases width
  {
    if width == 0 {
    } else {
      LeRoundTrip(v / 256, width - 1);
      assert Le(v, width)[1..] == Le(v / 256, width - 1);
    }
  }

  lemma {:induction false} LeExact(b: seq<byte>)
    ensures FromLe(b) < Capacity(|b|)
    ensures Le(FromLe(b), |b|) == b
  {
    if b == [] {
    } else {
      LeExact(b[1..]);
      assert FromLe(b) % 256 == b[0] && FromLe(b) / 256 == FromLe(b[1..]);
    }
  }

  /** Little-endian: the first byte weighs least. */
  lemma Weights(b: seq<byte>)
    ensures |b| == 2 ==> FromLe(b) == b[0] as int + b[1] as int * 0x100
    ensures |b| == 4 ==>
              FromLe(b) == b[0] as int + b[1] as int * 0x100 + b[2] as int * 0x1_0000 + b[3] as int * 0x100_0000
    ensures |b| == 8 ==>
              FromLe(b) == b[0] as int + b[1] as int * 0x100 + b[2] as int * 0x1_0000 + b[3] as int * 0x100_0000
                + b[4] as int * 0x1_0000_0000 + b[5] as int * 0x100_0000_0000
                + b[6] as int * 0x1_0000_0000_0000 + b[7] as int * 0x100_0000_0000_0000
  {
    if |b| >= 2 { WeightsTwo(b); }
    if |b| >= 4 { WeightsTwo(b[2..]); }
    if |b| == 8 {
      WeightsTwo(b[4..]);
      WeightsTwo(b[6..]);
      assert b[4..][2..] == b[6..];
    }
    assert |b| >= 4 ==> b[2..][2..] == b[4..];
    hide FromLe;
    assert |b| == 2 ==> b[2..] == [];
    FromLeNothing();
    assert |b| == 4 ==> b[4..] == [];
    assert |b| == 8 ==> b[6..][2..] == [];
  }

  lemma FromLeNothing()
    ensures FromLe([]) == 0
  {
  }

  lemma WeightsTwo(b: seq<byte>)
    requires |b| >= 2
    ensures FromLe(b) == b[0] + 0x100 * b[1] + 0x1_0000 * FromLe(b[2..])
  {
    assert b[1..][1..] == b[2..] && b[1..][0] == b[1];
  }

  lemma Capacities()
    ensures Capacity(1) == 0x100 && Capacity(2) == 0x1_0000 && Capacity(4) == 0x1_0000_0000 && Capacity(8) == U64_SIZE
  {
    assert Capacity(1) == 256 * Capacity(0);
    assert Capacity(2) == 256 * Capacity(1);
    assert Capacity(3) == 256 * Capacity(2);
    assert Capacity(4) == 256 * Capacity(3);
    assert Capacity(5) == 256 * Capacity(4);
    assert Capacity(6) == 256 * Capacity(5);
    assert Capacity(7) == 256 * Capacity(6);
    assert Capacity(8) == 256 * Capacity(7);
  }

  function U16(b: seq<byte>): u16
    requires |b| == 2
  {
    LeExact(b);
    Capacities();
    FromLe(b)
  }

  function U32(b: seq<byte>): u32
    requires |b| == 4
  {
    LeExact(b);
    Capacities();
    FromLe(b)
  }

  function U64(b: seq<byte>): u64
    requires |b| == 8
  {
    LeExact(b);
    Capacities();
    FromLe(b)
  }

  /** `len` bytes from `at`, when the buffer holds them all. */
  function SliceAt(buf: seq<byte>, at: nat, len: nat): (r: Option<seq<byte>>)
    ensures r.Some? <==> at + len <= |buf|
    ensures r.Some? ==> |r.value| == len
  {
    if at + len <= |buf| then Some(buf[at..at + len]) else None
  }

  lemma SliceOfSlice(b: seq<byte>, from: nat, to: nat, lo: nat, hi: nat)
    requires from <= to <= |b| && lo <= hi <= to - from
    ensures b[from + lo..from + hi] == b[from..to][lo..hi]
  {
    var x, y := b[from + lo..from + hi], b[from..to][lo..hi];
    forall k | 0 <= k < hi - lo ensures x[k] == y[k] {
      assert x[k] == b[from + lo + k] == b[from..to][lo + k];
    }
  }

  /** The little-endian number in `width` bytes at an offset. */
  function NumberAt(b: seq<byte>, at: nat, width: nat): nat
    requires at + width <= |b|
  {
    FromLe(b[at..at + width])
  }

  lemma NumberInside(b: seq<byte>, from: nat, to: nat, at: nat, width: nat)
    requires from + at + width <= to <= |b|
    ensures NumberAt(b[from..to], at, width) == NumberAt(b, from + at, width)
  {
    hide FromLe;
    SliceOfSlice(b, from, to, at, at + width);
    assert from + (at + width) == from + at + width;
  }

  lemma OneByte(b: seq<byte>, at: nat)
    requires at < |b|
    ensures NumberAt(b, at, 1) == b[at]
  {
    var one := b[at..at + 1];
    assert one[1..] == [];
    FromLeNothing();
    assert FromLe(one) == one[0] as int + 256 * FromLe(one[1..]);
  }
}
