/** Bytes as bit vectors, the form in which the checksum works on them. */
module Octets {
  import opened Bytes

  type octet = bv8

  datatype Bits8 = Bits8(b0: bool, b1: bool, b2: bool, b3: bool, b4: bool, b5: bool, b6: bool, b7: bool)

  function Set(b: bool, mask: octet): octet {
    if b then mask else 0
  }

  /** The number whose binary digits are those of `rest`, followed by `b`. */
  function Twice(b: bool, rest: nat): nat {
    2 * rest + if b then 1 else 0
  }

  /** The binary digits of a number, lowest first. */
  function Digits(n: byte): Bits8 {
    var n1 := n / 2;
    var n2 := n1 / 2;
    var n3 := n2 / 2;
    var n4 := n3 / 2;
    var n5 := n4 / 2;
    var n6 := n5 / 2;
    var n7 := n6 / 2;
    Bits8(n % 2 == 1, n1 % 2 == 1, n2 % 2 == 1, n3 % 2 == 1, n4 % 2 == 1, n5 % 2 == 1, n6 % 2 == 1, n7 % 2 == 1)
  }

  function Number(d: Bits8): nat {
    Twice(d.b0, Twice(d.b1, Twice(d.b2, Twice(d.b3, Twice(d.b4, Twice(d.b5, Twice(d.b6, Twice(d.b7, 0))))))))
  }

  function Pack(d: Bits8): octet {
    Set(d.b0, 0x01) | Set(d.b1, 0x02) | Set(d.b2, 0x04) | Set(d.b3, 0x08)
    | Set(d.b4, 0x10) | Set(d.b5, 0x20) | Set(d.b6, 0x40) | Set(d.b7, 0x80)
  }

  function Unpack(b: octet): Bits8 {
    Bits8(b & 0x01 != 0, b & 0x02 != 0, b & 0x04 != 0, b & 0x08 != 0,
          b & 0x10 != 0, b & 0x20 != 0, b & 0x40 != 0, b & 0x80 != 0)
  }

  function Octet(n: byte): octet {
    Pack(Digits(n))
  }

  function Value(b: octet): nat {
    Number(Unpack(b))
  }

  lemma PackUnpack(d: Bits8)
    ensures Unpack(Pack(d)) == d
  {
  }

  lemma Halved(n: nat)
    ensures Twice(n % 2 == 1, n / 2) == n
  {
  }

  lemma Halvings(n: byte)
    ensures n / 2 / 2 / 2 / 2 / 2 / 2 / 2 / 2 == 0
  {
  }

  lemma DigitsNumber(n: byte)
    ensures Number(Digits(n)) == n
  {
    hide Twice;
    var n1 := n / 2;
    var n2 := n1 / 2;
    var n3 := n2 / 2;
    var n4 := n3 / 2;
    var n5 := n4 / 2;
    var n6 := n5 / 2;
    var n7 := n6 / 2;
    Halvings(n);
    Halved(n7);
    Halved(n6);
    Halved(n5);
    Halved(n4);
    Halved(n3);
    Halved(n2);
    Halved(n1);
    Halved(n);
  }

  /** A number that is put into a byte is read back from it. */
  lemma OctetValue(n: byte)
    ensures Value(Octet(n)) == n
  {
    hide Pack, Unpack, Digits, Number;
    PackUnpack(Digits(n));
    DigitsNumber(n);
  }
}
