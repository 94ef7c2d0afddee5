/** memset and memmove of lib/string.c: word-wise and byte-wise paths, in both directions, in place. */
module Blocks {
  import opened Mmu

  /** dst becomes what src was; everything else stays. */
  ghost function Blit(m: seq<Byte>, dst: nat, src: nat, n: nat): (r: seq<Byte>)
    requires dst + n <= |m| && src + n <= |m|
    ensures |r| == |m|
  {
    m[..dst] + m[src..src + n] + m[dst + n..]
  }

  ghost function Fill(m: seq<Byte>, v: nat, c: Byte, n: nat): (r: seq<Byte>)
    requires v + n <= |m|
    ensures |r| == |m|
  {
    m[..v] + seq(n, _ => c) + m[v + n..]
  }

  // ------------------------------------------------------------- 32-bit words

  function WordOf(b0: Byte, b1: Byte, b2: Byte, b3: Byte): nat { b0 + 0x100 * b1 + 0x1_0000 * b2 + 0x100_0000 * b3 }

  /** A little-endian word comes apart into the bytes it was made of. */
  lemma WordBytes(b0: Byte, b1: Byte, b2: Byte, b3: Byte)
    ensures var w := WordOf(b0, b1, b2, b3);
            w % 0x100 == b0 && w / 0x100 % 0x100 == b1 && w / 0x1_0000 % 0x100 == b2 && w / 0x100_0000 % 0x100 == b3
  {
    var r1, r2 := b1 + 0x100 * b2 + 0x1_0000 * b3, b2 + 0x100 * b3;
    LowByte(b0, r1);
    LowByte(b1, r2);
    LowByte(b2, b3);
    DivideTwice(b0 + 0x100 * r1, 0x100);
    DivideTwice(b0 + 0x100 * r1, 0x1_0000);
  }

  lemma LowByte(b: Byte, r: nat)
    ensures (b + 0x100 * r) % 0x100 == b && (b + 0x100 * r) / 0x100 == r
  {
  }

  lemma DivideTwice(x: nat, k: nat)
    requires k == 0x100 || k == 0x1_0000
    ensures x / (k * 0x100) == x / k / 0x100
  {
  }

  method LoadWord(mem: array<Byte>, p: nat) returns (w: nat)
    requires p + 4 <= mem.Length
    ensures w == WordOf(mem[p], mem[p + 1], mem[p + 2], mem[p + 3])
  {
    w := WordOf(mem[p], mem[p + 1], mem[p + 2], mem[p + 3]);
  }

  method StoreWord(mem: array<Byte>, p: nat, w: nat)
    requires p + 4 <= mem.Length
    modifies mem
    ensures mem[p] == w % 0x100 && mem[p + 1] == w / 0x100 % 0x100
    ensures mem[p + 2] == w / 0x1_0000 % 0x100 && mem[p + 3] == w / 0x100_0000 % 0x100
    ensures forall x :: 0 <= x < mem.Length && !(p <= x < p + 4) ==> mem[x] == old(mem[x])
  {
    mem[p], mem[p + 1] := w % 0x100, w / 0x100 % 0x100;
    mem[p + 2], mem[p + 3] := w / 0x1_0000 % 0x100, w / 0x100_0000 % 0x100;
  }

  /** Copying one word, read completely before it is written. */
  method CopyWord(mem: array<Byte>, d: nat, s: nat)
    requires d + 4 <= mem.Length && s + 4 <= mem.Length
    modifies mem
    ensures forall x :: d <= x < d + 4 ==> mem[x] == old(mem[s + (x - d)])
    ensures forall x :: 0 <= x < mem.Length && !(d <= x < d + 4) ==> mem[x] == old(mem[x])
  {
    var w := LoadWord(mem, s);
    WordBytes(mem[s], mem[s + 1], mem[s + 2], mem[s + 3]);
    StoreWord(mem, d, w);
    forall x | d <= x < d + 4 ensures mem[x] == old(mem[s + (x - d)]) {
      assert x == d || x == d + 1 || x == d + 2 || x == d + 3;
    }
  }

  // ---------------------------------------------------- the four string moves

  /** cld; rep movsb */
  method MoveBytesUp(mem: array<Byte>, d: nat, s: nat, n: nat)
    requires d + n <= mem.Length && s + n <= mem.Length && (d <= s || s + n <= d)
    modifies mem
    ensures mem[..] == Blit(old(mem[..]), d, s, n)
  {
    for i := 0 to n
      invariant forall x :: 0 <= x < mem.Length ==> mem[x] == if d <= x < d + i then old(mem[s + (x - d)]) else old(mem[x])
    {
      mem[d + i] := mem[s + i];
    }
    BlitIs(mem[..], old(mem[..]), d, s, n);
  }

  /** cld; rep movsl */
  method MoveWordsUp(mem: array<Byte>, d: nat, s: nat, words: nat)
    requires d + 4 * words <= mem.Length && s + 4 * words <= mem.Length && (d <= s || s + 4 * words <= d)
    modifies mem
    ensures mem[..] == Blit(old(mem[..]), d, s, 4 * words)
  {
    for i := 0 to words
      invariant forall x :: 0 <= x < mem.Length ==>
                  mem[x] == if d <= x < d + 4 * i then old(mem[s + (x - d)]) else old(mem[x])
    {
      CopyWord(mem, d + 4 * i, s + 4 * i);
    }
    BlitIs(mem[..], old(mem[..]), d, s, 4 * words);
  }

  /** std; rep movsb, starting from the last byte */
  method MoveBytesDown(mem: array<Byte>, d: nat, s: nat, n: nat)
    requires d + n <= mem.Length && s + n <= mem.Length && s <= d
    modifies mem
    ensures mem[..] == Blit(old(mem[..]), d, s, n)
  {
    for i := 0 to n
      invariant forall x :: 0 <= x < mem.Length ==>
                  mem[x] == if d + n - i <= x < d + n then old(mem[s + (x - d)]) else old(mem[x])
    {
      mem[d + n - 1 - i] := mem[s + n - 1 - i];
    }
    BlitIs(mem[..], old(mem[..]), d, s, n);
  }

  /** std; rep movsl, starting from the last word */
  method MoveWordsDown(mem: array<Byte>, d: nat, s: nat, words: nat)
    requires d + 4 * words <= mem.Length && s + 4 * words <= mem.Length && s <= d
    modifies mem
    ensures mem[..] == Blit(old(mem[..]), d, s, 4 * words)
  {
    for i := 0 to words
      invariant forall x :: 0 <= x < mem.Length ==>
                  mem[x] == if d + 4 * (words - i) <= x < d + 4 * words then old(mem[s + (x - d)]) else old(mem[x])
    {
      CopyWord(mem, d + 4 * (words - i - 1), s + 4 * (words - i - 1));
    }
    BlitIs(mem[..], old(mem[..]), d, s, 4 * words);
  }

  lemma BlitIs(now: seq<Byte>, was: seq<Byte>, d: nat, s: nat, n: nat)
    requires d + n <= |was| && s + n <= |was| && |now| == |was|
    requires forall x :: d <= x < d + n ==> now[x] == was[s + (x - d)]
    requires forall x :: 0 <= x < |was| && !(d <= x < d + n) ==> now[x] == was[x]
    ensures now == Blit(was, d, s, n)
  {
    var front, block, back := was[..d], was[s..s + n], was[d + n..];
    assert now[..d] == front;
    assert now[d..d + n] == block;
    assert now[d + n..] == back;
    assert now == now[..d] + now[d..d + n] + now[d + n..];
  }

  /** For every overlap, memmove leaves the old source at dst and everything else unchanged. */
  method MemMove(mem: array<Byte>, dst: nat, src: nat, n: nat)
    requires dst + n <= mem.Length && src + n <= mem.Length
    modifies mem
    ensures mem[..] == Blit(old(mem[..]), dst, src, n)
  {
    hide Blit;
    assert n % 4 == 0 ==> 4 * (n / 4) == n;
    if src < dst && src + n > dst {
      var s, d := src + n, dst + n;
      if s % 4 == 0 && d % 4 == 0 && n % 4 == 0 {
        MoveWordsDown(mem, d - n, s - n, n / 4);
      } else {
        MoveBytesDown(mem, d - n, s - n, n);
      }
    } else {
      if src % 4 == 0 && dst % 4 == 0 && n % 4 == 0 {
        MoveWordsUp(mem, dst, src, n / 4);
      } else {
        MoveBytesUp(mem, dst, src, n);
      }
    }
  }

  // ------------------------------------------------------------------- memset

  /** (c<<24)|(c<<16)|(c<<8)|c */
  function Replicate(c: Byte): nat { WordOf(c, c, c, c) }

  /** The replicated-word path of memset stores the same bytes as its byte path: the low byte of c, n times. */
  method MemSet(mem: array<Byte>, v: nat, c: int, n: nat)
    requires v + n <= mem.Length
    modifies mem
    ensures mem[..] == Fill(old(mem[..]), v, c % 256, n)
  {
    var low: Byte := c % 256;
    if v % 4 == 0 && n % 4 == 0 {
      var w := Replicate(low);
      WordBytes(low, low, low, low);
      for i := 0 to n / 4
        invariant forall x :: 0 <= x < mem.Length ==> mem[x] == if v <= x < v + 4 * i then low else old(mem[x])
      {
        StoreWord(mem, v + 4 * i, w);
      }
    } else {
      for i := 0 to n
        invariant forall x :: 0 <= x < mem.Length ==> mem[x] == if v <= x < v + i then low else old(mem[x])
      {
        mem[v + i] := low;
      }
    }
  }
}
