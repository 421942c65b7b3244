/** The 8-byte form of an offset: the magnitude with the least byte first, the sign in the top bit
    of the last byte. */
module OffsetCodec {
  import opened Bytes

  const LIMIT: int := 0x8000_0000_0000_0000

  function Pow256(n: nat): (p: nat)
    ensures p > 0
  {
    if n == 0 then 1 else 256 * Pow256(n - 1)
  }

  function LittleEndian(y: nat, n: nat): (b: seq<Byte>)
    ensures |b| == n
  {
    if n == 0 then [] else [y % 256] + LittleEndian(y / 256, n - 1)
  }

  function FromLittleEndian(b: seq<Byte>): (y: nat) {
    if b == [] then 0 else (b[0] as int) + 256 * FromLittleEndian(b[1..])
  }

  lemma {:induction false} LittleEndianDecodes(y: nat, n: nat)
    requires y < Pow256(n)
    ensures FromLittleEndian(LittleEndian(y, n)) == y
  {
    if n > 0 {
      LittleEndianDecodes(y / 256, n - 1);
      assert LittleEndian(y, n)[1..] == LittleEndian(y / 256, n - 1);
    }
  }

  lemma {:induction false} FromLittleEndianEncodes(b: seq<Byte>)
    ensures FromLittleEndian(b) < Pow256(|b|)
    ensures LittleEndian(FromLittleEndian(b), |b|) == b
  {
    if b != [] {
      FromLittleEndianEncodes(b[1..]);
      assert b == [b[0]] + b[1..];
    }
  }

  /** `x` as eight bytes. */
  function OffsetBytes(x: int): (b: seq<Byte>)
    ensures |b| == 8
  {
    var b := LittleEndian(if x < 0 then -x else x, 8);
    if x < 0 && b[7] < 0x80 then b[7 := b[7] + 0x80] else b
  }

  /** The number eight bytes stand for. */
  function OffsetValue(b: seq<Byte>): int
    requires |b| == 8
  {
    var y: int := FromLittleEndian(b[7 := b[7] % 0x80]);
    if b[7] >= 0x80 then -y else y
  }

  /** The last byte and the seven before it. */
  lemma TopByte(b: seq<Byte>)
    requires |b| == 8
    ensures FromLittleEndian(b) == FromLittleEndian(b[..7]) + Pow256(7) * (b[7] as int)
    ensures FromLittleEndian(b[..7]) < Pow256(7)
    ensures Pow256(7) * 128 == LIMIT && Pow256(8) == 2 * LIMIT
  {
    FromLittleEndianEncodes(b[..7]);
    LastByte(b);
    assert Pow256(7) == 0x100_0000_0000_0000 by {
      assert Pow256(1) == 256;
      assert Pow256(2) == 0x1_0000;
      assert Pow256(3) == 0x100_0000;
      assert Pow256(4) == 0x1_0000_0000;
      assert Pow256(5) == 0x100_0000_0000;
      assert Pow256(6) == 0x1_0000_0000_0000;
    }
  }

  lemma {:induction false} LastByte(b: seq<Byte>)
    requires b != []
    ensures FromLittleEndian(b) == FromLittleEndian(b[..|b| - 1]) + Pow256(|b| - 1) * (b[|b| - 1] as int)
  {
    if |b| > 1 {
      LastByte(b[1..]);
      assert b[1..][..|b| - 2] == b[..|b| - 1][1..];
    }
  }

  /** Every offset of less than 63 bits survives the trip through the file. */
  lemma OffsetRoundTrip(x: int)
    requires -LIMIT < x < LIMIT
    ensures OffsetValue(OffsetBytes(x)) == x
  {
    hide LittleEndian, FromLittleEndian, Pow256;
    var y := if x < 0 then -x else x;
    var b := LittleEndian(y, 8);
    TopByte(b);
    LittleEndianDecodes(y, 8);
    var c := OffsetBytes(x);
    assert c[7 := c[7] % 0x80] == b;
  }

  const ZERO: seq<Byte> := [0, 0, 0, 0, 0, 0, 0, 0]
  const MINUS_ZERO: seq<Byte> := ZERO[7 := 0x80]

  lemma NoBytes(y: nat)
    ensures LittleEndian(y, 0) == []
  {
  }

  lemma FourBytes(y: nat)
    ensures var y1 := y / 256; var y2 := y1 / 256; var y3 := y2 / 256;
            forall n: nat | n >= 4 :: LittleEndian(y, n) ==
                [y % 256, y1 % 256, y2 % 256, y3 % 256] + LittleEndian(y3 / 256, n - 4)
  {
    var y1 := y / 256;
    var y2 := y1 / 256;
    var y3 := y2 / 256;
    forall n: nat | n >= 4 ensures LittleEndian(y, n) ==
        [y % 256, y1 % 256, y2 % 256, y3 % 256] + LittleEndian(y3 / 256, n - 4) {
      assert LittleEndian(y, n) == [y % 256] + LittleEndian(y1, n - 1);
      assert LittleEndian(y1, n - 1) == [y1 % 256] + LittleEndian(y2, n - 2);
      assert LittleEndian(y2, n - 2) == [y2 % 256] + LittleEndian(y3, n - 3);
      assert LittleEndian(y3, n - 3) == [y3 % 256] + LittleEndian(y3 / 256, n - 4);
    }
  }

  /** The eight bytes of a magnitude spelled out. */
  lemma EightBytes(y: nat)
    ensures var y1 := y / 256; var y2 := y1 / 256; var y3 := y2 / 256; var y4 := y3 / 256;
            var y5 := y4 / 256; var y6 := y5 / 256; var y7 := y6 / 256;
            LittleEndian(y, 8) == [y % 256, y1 % 256, y2 % 256, y3 % 256, y4 % 256, y5 % 256, y6 % 256, y7 % 256]
  {
    hide LittleEndian;
    var y4 := y / 256 / 256 / 256 / 256;
    FourBytes(y);
    FourBytes(y4);
    NoBytes(y4 / 256 / 256 / 256 / 256);
    assert LittleEndian(y, 8) == [y % 256, y / 256 % 256, y / 256 / 256 % 256, y / 256 / 256 / 256 % 256]
        + LittleEndian(y4, 4);
  }

  lemma ZeroBytes(m: seq<Byte>)
    requires |m| == 8
    ensures FromLittleEndian(m) == 0 <==> m == ZERO
  {
    hide LittleEndian, FromLittleEndian;
    FromLittleEndianEncodes(m);
    EightBytes(0);
    LittleEndianDecodes(0, 8);
  }

  /** Every 8-byte string but one is the form of its value: minus zero reads as zero. */
  lemma BytesRoundTrip(b: seq<Byte>)
    requires |b| == 8
    ensures -LIMIT < OffsetValue(b) < LIMIT
    ensures OffsetBytes(OffsetValue(b)) == b <==> b != MINUS_ZERO
  {
    hide LittleEndian, FromLittleEndian, Pow256;
    var m := b[7 := b[7] % 0x80];
    var y := FromLittleEndian(m);
    TopByte(m);
    FromLittleEndianEncodes(m);
    ZeroBytes(m);
    assert b[7] >= 0x80 ==> b == m[7 := m[7] + 0x80];
  }

  /** `offtout`: writes `x` to the eight bytes of `buf` at `at`. */
  method Offtout(x: int, buf: array<Byte>, at: nat)
    requires at + 8 <= buf.Length
    modifies buf
    ensures buf[at..at + 8] == OffsetBytes(x)
    ensures forall k | 0 <= k < at || at + 8 <= k < buf.Length :: buf[k] == old(buf[k])
  {
    hide LittleEndian;
    var y := if x < 0 then -x else x;
    EightBytes(y);
    ghost var b := LittleEndian(y, 8);
    buf[at + 0] := y % 256; y := y / 256;
    buf[at + 1] := y % 256; y := y / 256;
    buf[at + 2] := y % 256; y := y / 256;
    buf[at + 3] := y % 256; y := y / 256;
    assert buf[at] == b[0] && buf[at + 1] == b[1] && buf[at + 2] == b[2] && buf[at + 3] == b[3];
    buf[at + 4] := y % 256; y := y / 256;
    buf[at + 5] := y % 256; y := y / 256;
    buf[at + 6] := y % 256; y := y / 256;
    buf[at + 7] := y % 256;
    assert buf[at + 4] == b[4] && buf[at + 5] == b[5] && buf[at + 6] == b[6] && buf[at + 7] == b[7];
    if x < 0 && buf[at + 7] < 0x80 {
      buf[at + 7] := buf[at + 7] + 0x80;
    }
  }

  /** `offtin`: the bytes from the last to the first, the sign put back at the end. */
  method Offtin(buf: seq<Byte>) returns (y: int)
    requires |buf| == 8
    ensures y == OffsetValue(buf)
  {
    ghost var m := buf[7 := buf[7] % 0x80];
    HornerSteps(m);
    y := buf[7] % 0x80;
    y := y * 256; y := y + buf[6]; assert y == FromLittleEndian(m[6..]);
    y := y * 256; y := y + buf[5]; assert y == FromLittleEndian(m[5..]);
    y := y * 256; y := y + buf[4]; assert y == FromLittleEndian(m[4..]);
    y := y * 256; y := y + buf[3]; assert y == FromLittleEndian(m[3..]);
    y := y * 256; y := y + buf[2]; assert y == FromLittleEndian(m[2..]);
    y := y * 256; y := y + buf[1]; assert y == FromLittleEndian(m[1..]);
    y := y * 256; y := y + buf[0]; assert y == FromLittleEndian(m[0..]);
    if buf[7] >= 0x80 {
      y := -y;
    }
  }

  lemma HornerSteps(m: seq<Byte>)
    requires |m| == 8
    ensures FromLittleEndian(m[7..]) == m[7]
    ensures forall k | 0 <= k < 7 :: FromLittleEndian(m[k..]) == (m[k] as int) + 256 * FromLittleEndian(m[k + 1..])
    ensures m[0..] == m
  {
    assert m[7..] == [m[7]];
    forall k | 0 <= k < 7 ensures FromLittleEndian(m[k..]) == (m[k] as int) + 256 * FromLittleEndian(m[k + 1..]) {
      assert m[k..][1..] == m[k + 1..];
    }
  }
}
