/** Stored counters: 64-bit arithmetic with Go's wrapping conversions, and the 8-byte big-endian form
    in which a counter is kept in the database. */
module Counters {
  const TWO_8: int := 0x100
  const TWO_63: int := 0x8000_0000_0000_0000
  const TWO_64: int := 0x1_0000_0000_0000_0000

  type uint64 = x: int | 0 <= x < TWO_64
  type int64 = x: int | -TWO_63 <= x < TWO_63
  type byte = x: int | 0 <= x < TWO_8

  /** Go's conversion to uint64: keep the low 64 bits. */
  function ToUint64(x: int): uint64 {
    x % TWO_64
  }

  /** Go's conversion to int64, and the result of int64 arithmetic: two's complement wrap-around. */
  function ToInt64(x: int): int64 {
    (x + TWO_63) % TWO_64 - TWO_63
  }

  /** The value `incCounter` stores. */
  function Bump(cur: uint64, delta: int64): uint64 {
    if delta < 0 && ToUint64(ToInt64(-(delta as int))) > cur then 0
    else ToUint64(ToInt64(ToInt64(cur) + delta))
  }

  function Max(a: int, b: int): int {
    if a >= b then a else b
  }

  lemma WrapsToSameResidue(x: int)
    ensures ToUint64(ToInt64(x)) == ToUint64(x)
  {
    var k := (x + TWO_63) / TWO_64;
    assert ToInt64(x) == x - k * TWO_64;
  }

  lemma AddWraps(cur: uint64, delta: int64)
    ensures ToUint64(ToInt64(ToInt64(cur) + delta)) == ToUint64(cur + delta)
  {
    WrapsToSameResidue(ToInt64(cur) + delta);
    assert ToInt64(cur) == cur || ToInt64(cur) == cur - TWO_64;
    if ToInt64(cur) == cur - TWO_64 {
      assert (cur - TWO_64 + delta) % TWO_64 == (cur + delta) % TWO_64;
    }
  }

  /** The wrapping code computes max(0, cur + delta) exactly when that fits in 64 bits; past it, the
      stored counter has lost 2^64. */
  lemma BumpSaturates(cur: uint64, delta: int64)
    ensures Bump(cur, delta) == Max(0, cur + delta) <==> cur + delta < TWO_64
    ensures cur + delta >= TWO_64 ==> Bump(cur, delta) == cur + delta - TWO_64
  {
    AddWraps(cur, delta);
    if delta < 0 {
      assert ToUint64(ToInt64(-(delta as int))) == -(delta as int) by {
        WrapsToSameResidue(-(delta as int));
      }
    }
  }

  lemma BumpByOne(cur: uint64)
    ensures Bump(cur, 1) == if cur + 1 < TWO_64 then cur + 1 else 0
  {
    BumpSaturates(cur, 1);
  }

  // ---------- Big-endian form ----------

  /** The `n` low bytes of `v`, most significant first. */
  function BigEndian(n: nat, v: nat): seq<byte> {
    if n == 0 then [] else BigEndian(n - 1, v / TWO_8) + [v % TWO_8]
  }

  function FromBigEndian(bytes: seq<byte>): nat {
    if bytes == [] then 0
    else FromBigEndian(bytes[..|bytes| - 1]) * TWO_8 + bytes[|bytes| - 1]
  }

  function Power(n: nat): nat {
    if n == 0 then 1 else TWO_8 * Power(n - 1)
  }

  lemma {:induction false} BigEndianLength(n: nat, v: nat)
    ensures |BigEndian(n, v)| == n
    decreases n
  {
    if n == 0 {
    } else {
      BigEndianLength(n - 1, v / TWO_8);
    }
  }

  lemma {:induction false} WriteThenRead(n: nat, v: nat)
    requires v < Power(n)
    ensures |BigEndian(n, v)| == n && FromBigEndian(BigEndian(n, v)) == v
    decreases n
  {
    if n == 0 {
    } else {
      assert v / TWO_8 < Power(n - 1);
      WriteThenRead(n - 1, v / TWO_8);
      assert BigEndian(n, v)[..n - 1] == BigEndian(n - 1, v / TWO_8);
    }
  }

  lemma {:induction false} ReadThenWrite(bytes: seq<byte>)
    ensures FromBigEndian(bytes) < Power(|bytes|)
    ensures BigEndian(|bytes|, FromBigEndian(bytes)) == bytes
    decreases |bytes|
  {
    if bytes == [] {
    } else {
      var front := bytes[..|bytes| - 1];
      ReadThenWrite(front);
      assert FromBigEndian(bytes) / TWO_8 == FromBigEndian(front);
      assert FromBigEndian(bytes) % TWO_8 == bytes[|bytes| - 1];
      assert bytes == front + [bytes[|bytes| - 1]];
    }
  }

  /** The first byte weighs most: it counts for 256 to the number of bytes after it. */
  lemma {:induction false} FirstByteWeighsMost(bytes: seq<byte>)
    requires bytes != []
    ensures FromBigEndian(bytes) == bytes[0] * Power(|bytes| - 1) + FromBigEndian(bytes[1..])
    decreases |bytes|
  {
    if |bytes| == 1 {
      assert bytes[..0] == [] && bytes[1..] == [];
    } else {
      var front, last := bytes[..|bytes| - 1], bytes[|bytes| - 1];
      FirstByteWeighsMost(front);
      assert front[1..] == bytes[1..][..|bytes| - 2];
      Shift(bytes[0], Power(|bytes| - 2));
    }
  }

  lemma Shift(x: nat, y: nat)
    ensures x * y * TWO_8 == x * (TWO_8 * y)
  {
  }

  lemma PowerOfEight()
    ensures Power(8) == TWO_64
  {
    assert Power(1) == TWO_8 * Power(0);
    assert Power(2) == TWO_8 * Power(1);
    assert Power(3) == TWO_8 * Power(2);
    assert Power(4) == TWO_8 * Power(3);
    assert Power(5) == TWO_8 * Power(4);
    assert Power(6) == TWO_8 * Power(5);
    assert Power(7) == TWO_8 * Power(6);
    assert Power(8) == TWO_8 * Power(7);
  }

  /** Eight bytes and 64-bit values correspond one to one: nothing is lost either way. */
  lemma CounterBytesRoundTrip(v: uint64, bytes: seq<byte>)
    ensures |BigEndian(8, v)| == 8 && FromBigEndian(BigEndian(8, v)) == v
    ensures |bytes| == 8 ==> FromBigEndian(bytes) < TWO_64 && BigEndian(8, FromBigEndian(bytes)) == bytes
  {
    PowerOfEight();
    WriteThenRead(8, v);
    ReadThenWrite(bytes);
  }

  /** binary.BigEndian.PutUint64: fills the buffer in place. */
  method PutUint64(buf: array<byte>, v: uint64)
    requires buf.Length == 8
    modifies buf
    ensures buf[..] == BigEndian(8, v)
  {
    var i, rest := 8, v;
    while i > 0
      invariant 0 <= i <= 8 && rest >= 0
      invariant BigEndian(8, v) == BigEndian(i, rest) + buf[i..]
    {
      i := i - 1;
      buf[i] := rest % TWO_8;
      rest := rest / TWO_8;
    }
  }
}
