/** Bytes and the bounds-checked little-endian readers that every crate carries
    (for instance crates/fs-ext/src/bytes.rs and crates/fs-apfs/src/obj.rs):
    a read that does not fit gives 0. */
module Bytes {
  type Byte = x: int | 0 <= x < 256

  function LeU16(b: seq<Byte>, off: nat): (r: nat)
    ensures r < 0x1_0000
  {
    if off + 2 <= |b| then b[off] as int + 0x100 * b[off + 1] as int else 0
  }

  function LeU32(b: seq<Byte>, off: nat): (r: nat)
    ensures r < 0x1_0000_0000
  {
    if off + 4 <= |b| then
      b[off] as int + 0x100 * b[off + 1] as int + 0x1_0000 * b[off + 2] as int + 0x100_0000 * b[off + 3] as int
    else 0
  }

  function LeU64(b: seq<Byte>, off: nat): (r: nat)
    ensures r < 0x1_0000_0000_0000_0000
  {
    if off + 8 <= |b| then LeU32(b, off) + 0x1_0000_0000 * LeU32(b, off + 4) else 0
  }

  function ToLe16(v: nat): (r: seq<Byte>)
    requires v < 0x1_0000
    ensures |r| == 2 && LeU16(r, 0) == v
  {
    [v % 0x100, v / 0x100]
  }

  function ToLe32(v: nat): (r: seq<Byte>)
    requires v < 0x1_0000_0000
    ensures |r| == 4 && LeU32(r, 0) == v
  {
    var q1 := v / 0x100;
    var q2 := q1 / 0x100;
    [v % 0x100, q1 % 0x100, q2 % 0x100, q2 / 0x100]
  }

  function ToLe64(v: nat): (r: seq<Byte>)
    requires v < 0x1_0000_0000_0000_0000
    ensures |r| == 8
  {
    ToLe32(v % 0x1_0000_0000) + ToLe32(v / 0x1_0000_0000)
  }

  function ByteOrZero(b: seq<Byte>, i: nat): Byte { if i < |b| then b[i] else 0 }

  /** A bounded read of a source: what lies past its end reads as zeros. */
  function ReadPadded(disk: seq<Byte>, off: nat, n: nat): (r: seq<Byte>)
    ensures |r| == n && forall i | 0 <= i < n :: r[i] == ByteOrZero(disk, off + i)
  {
    seq<Byte>(n, i requires 0 <= i < n => ByteOrZero(disk, off + i))
  }

  function Write(disk: seq<Byte>, off: nat, b: seq<Byte>): (r: seq<Byte>)
    requires off + |b| <= |disk|
    ensures |r| == |disk|
    ensures forall i: nat :: ByteOrZero(r, i) == if off <= i < off + |b| then b[i - off] else ByteOrZero(disk, i)
  {
    disk[..off] + b + disk[off + |b|..]
  }

  /** The bytes of `x` stand in `b` at `pos`. */
  predicate At(b: seq<Byte>, pos: nat, x: seq<Byte>) {
    pos + |x| <= |b| && forall i | 0 <= i < |x| :: b[pos + i] == x[i]
  }

  lemma Reads16(b: seq<Byte>, pos: nat, v: nat)
    requires v < 0x1_0000 && At(b, pos, ToLe16(v))
    ensures LeU16(b, pos) == v
  {
    var r := ToLe16(v);
    assert b[pos] == r[0] && b[pos + 1] == r[1];
    assert LeU16(r, 0) == v;
  }

  lemma Reads32(b: seq<Byte>, pos: nat, v: nat)
    requires v < 0x1_0000_0000 && At(b, pos, ToLe32(v))
    ensures LeU32(b, pos) == v
  {
    var r := ToLe32(v);
    assert b[pos] == r[0] && b[pos + 1] == r[1] && b[pos + 2] == r[2] && b[pos + 3] == r[3];
    assert LeU32(r, 0) == v;
  }

  lemma Reads64(b: seq<Byte>, pos: nat, v: nat)
    requires v < 0x1_0000_0000_0000_0000 && At(b, pos, ToLe64(v))
    ensures LeU64(b, pos) == v
  {
    AtSplit(b, pos, ToLe32(v % 0x1_0000_0000), ToLe32(v / 0x1_0000_0000));
    Reads32(b, pos, v % 0x1_0000_0000);
    Reads32(b, pos + 4, v / 0x1_0000_0000);
  }

  lemma AtSplit(b: seq<Byte>, pos: nat, x: seq<Byte>, y: seq<Byte>)
    requires At(b, pos, x + y)
    ensures At(b, pos, x) && At(b, pos + |x|, y)
  {
    forall i | 0 <= i < |x| ensures b[pos + i] == x[i] {
      assert (x + y)[i] == x[i];
    }
    forall i | 0 <= i < |y| ensures b[pos + |x| + i] == y[i] {
      assert (x + y)[|x| + i] == y[i];
    }
  }
}
