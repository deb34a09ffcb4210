/** 32-bit integers and their bytes. */
module Words {
  import opened Bytes

  /** A C int of 32 bits. */
  type Int32 = x: int | -0x8000_0000 <= x < 0x8000_0000

  type Quad = d: seq<Byte> | |d| == 4 witness [0, 0, 0, 0]

  function Unsigned(x: Int32): nat {
    if x < 0 then x + 0x1_0000_0000 else x
  }

  function Signed(u: int): Int32
    requires 0 <= u < 0x1_0000_0000
  {
    if u >= 0x8000_0000 then u - 0x1_0000_0000 else u
  }

  function Low(u: nat): Byte {
    u % 256
  }

  function Up(low: nat, high: nat): nat {
    low + 256 * high
  }

  function LittleBytes(x: Int32): Quad {
    var u0 := Unsigned(x);
    var u1 := u0 / 256;
    var u2 := u1 / 256;
    [Low(u0), Low(u1), Low(u2), Low(u2 / 256)]
  }

  function LittleValue(d: Quad): Int32 {
    Signed(Up(d[0], Up(d[1], Up(d[2], d[3]))))
  }

  lemma LittleRoundTrip(x: Int32)
    ensures LittleValue(LittleBytes(x)) == x
  {
    var u0 := Unsigned(x);
    var u1 := u0 / 256;
    var u2 := u1 / 256;
    assert u2 / 256 < 256;
    assert LittleValue(LittleBytes(x)) == Signed(u0);
  }

  /** The low byte first, in two's complement. */
  lemma LittleBytesMean(x: Int32)
    ensures var d := LittleBytes(x);
      (d[0] as int) + 0x100 * (d[1] as int) + 0x1_0000 * (d[2] as int) + 0x100_0000 * (d[3] as int)
      == if x < 0 then x + 0x1_0000_0000 else x
  {
    var u0 := Unsigned(x);
    var u1 := u0 / 256;
    var u2 := u1 / 256;
    assert u2 / 256 < 256;
  }

  lemma LittleBytesOf(d: Quad)
    ensures LittleBytes(LittleValue(d)) == d
  {
    var u2 := Up(d[2], d[3]);
    var u1 := Up(d[1], u2);
    var u0 := Up(d[0], u1);
    assert Unsigned(Signed(u0)) == u0;
    assert u0 / 256 == u1 && u1 / 256 == u2 && u2 / 256 == d[3];
  }
}
