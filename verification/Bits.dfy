/** Bytes as machine octets. */
module Bits {
  import opened Utf8

  function Power(k: nat): (n: nat)
    requires k <= 8
  {
    [1, 2, 4, 8, 0x10, 0x20, 0x40, 0x80, 0x100][k]
  }

  function Bit(k: nat): bv8
    requires k < 8
  {
    [1, 2, 4, 8, 0x10, 0x20, 0x40, 0x80][k]
  }

  /** Setting the next bit above an octet adds its power of two. */
  lemma {:induction false} AddBit(o: bv8, k: nat)
    requires k < 8 && o as int < Power(k)
    ensures (o | Bit(k)) as int == o as int + Power(k)
  {
    match k {
      case 0 => assert (o | 1) as int == o as int + 1;
      case 1 => assert (o | 2) as int == o as int + 2;
      case 2 => assert (o | 4) as int == o as int + 4;
      case 3 => assert (o | 8) as int == o as int + 8;
      case 4 => assert (o | 0x10) as int == o as int + 0x10;
      case 5 => assert (o | 0x20) as int == o as int + 0x20;
      case 6 => assert (o | 0x40) as int == o as int + 0x40;
      case 7 => assert (o | 0x80) as int == o as int + 0x80;
    }
  }

  /** A number below the power of two by its low bits. */
  function LowBits(b: nat, k: nat): (o: bv8)
    requires k <= 8 && b < Power(k)
    ensures o as int == b
  {
    if k == 0 then 0
    else
      var top: nat := k - 1;
      if b < Power(top) then LowBits(b, top)
      else
        var rest: nat := b - Power(top);
        AddBit(LowBits(rest, top), top);
        LowBits(rest, top) | Bit(top)
  }

  /** A byte as eight bits. */
  function Octet(b: byte): (o: bv8)
    ensures o as int == b
  {
    LowBits(b, 8)
  }
}
