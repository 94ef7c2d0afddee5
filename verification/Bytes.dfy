/** Twelve flag bits as a number. */
module Bits {
  lemma Successor(y: bv12)
    requires y as int < 4095
    ensures (y + 1) as int == y as int + 1
  {
  }

  /** Every number below 4096 is the value of some flag word. */
  lemma Reached(x: nat) returns (y: bv12)
    requires x < 4096
    ensures y as int == x
  {
    if x == 0 {
      y := 0;
    } else {
      var z := Reached(x - 1);
      Successor(z);
      y := z + 1;
    }
  }

  lemma BackAndForth(y: bv12)
    ensures (y as int) as bv12 == y
  {
  }

  lemma LowBits(x: nat)
    requires x < 4096
    ensures (x as bv12) as int == x
  {
    var y := Reached(x);
    BackAndForth(y);
  }
}

/** The bytes of a 32-bit word in memory, little-endian. */
module Bytes {
  import opened Mmu
  import opened Pmap
  import Bits

  function Value(w: Word): nat { w.pfn * 4096 + w.flags as int }

  function OfValue(n: nat): Word { Word(n / 4096, (n % 4096) as bv12) }

  /** The four bytes of a number, little-endian; anything above 32 bits stays in the last part. */
  function Part(n: nat, k: nat): nat
    requires k < 4
  {
    if k == 0 then n % 256 else if k == 1 then n / 0x100 % 256 else if k == 2 then n / 0x1_0000 % 256 else n / 0x100_0000
  }

  function Compose(c0: Byte, c1: Byte, c2: Byte, s: nat): nat { c0 + 0x100 * c1 + 0x1_0000 * c2 + 0x100_0000 * s }

  lemma ComposeParts(c0: Byte, c1: Byte, c2: Byte, s: nat)
    ensures var n := Compose(c0, c1, c2, s); Part(n, 0) == c0 && Part(n, 1) == c1 && Part(n, 2) == c2 && Part(n, 3) == s
  {
    var n := Compose(c0, c1, c2, s);
    assert n / 0x100 == c1 + 0x100 * c2 + 0x1_0000 * s;
    assert n / 0x1_0000 == n / 0x100 / 0x100 == c2 + 0x100 * s;
    assert n / 0x100_0000 == n / 0x1_0000 / 0x100 == s;
  }

  function GetByte(w: Word, k: nat): Byte
    requires k < 4
  {
    Part(Value(w), k) % 256
  }

  function SetByte(w: Word, k: nat, b: Byte): Word
    requires k < 4
  {
    var n := Value(w);
    var top := Part(n, 3);
    OfValue(Compose(if k == 0 then b else Part(n, 0), if k == 1 then b else Part(n, 1), if k == 2 then b else Part(n, 2),
                    if k == 3 then top - top % 256 + b else top))
  }

  lemma ValueOfValue(n: nat)
    ensures Value(OfValue(n)) == n
  {
    Bits.LowBits(n % 4096);
  }

  /** Writing one byte of a word changes that byte only. */
  lemma SetThenGet(w: Word, k: nat, b: Byte, j: nat)
    requires k < 4 && j < 4
    ensures GetByte(SetByte(w, k, b), j) == if j == k then b else GetByte(w, j)
  {
    hide Value, OfValue, Compose, Part;
    var n := Value(w);
    SmallParts(n);
    var top := Part(n, 3);
    var c0, c1, c2, s := if k == 0 then b else Part(n, 0), if k == 1 then b else Part(n, 1), if k == 2 then b else Part(n, 2),
                         if k == 3 then top - top % 256 + b else top;
    ComposeParts(c0, c1, c2, s);
    ValueOfValue(Compose(c0, c1, c2, s));
    LastPart(top, b);
  }

  lemma SmallParts(n: nat)
    ensures Part(n, 0) < 256 && Part(n, 1) < 256 && Part(n, 2) < 256
  {
  }

  lemma LastPart(top: nat, b: Byte)
    ensures top >= top % 256 && (top - top % 256 + b) % 256 == b
  {
  }
}
