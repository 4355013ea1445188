/**
 The sample buffer of the PDM driver, seen as the bytes it is made of.

 The DMA engine fills `_dmaBuffer`, an array of 32-bit words, with 16-bit samples.  The
 interrupt then widens them inside the same memory, reading 16-bit halves through one
 pointer and writing 32-bit words through another.  The processor is little-endian.
 */
module PdmSamples {
  import opened Fifo

  type Sample = x: int | -0x8000_0000 <= x < 0x8000_0000
  type Sample16 = x: int | -0x8000 <= x < 0x8000

  function LittleEndian(b0: int, b1: int, b2: int, b3: int): int {
    b0 + 0x100 * b1 + 0x1_0000 * b2 + 0x100_0000 * b3
  }

  /** The 16-bit two's complement value at half-word index `i`. */
  function Half(mem: seq<byte>, i: nat): (x: Sample16)
    requires 2 * i + 1 < |mem|
  {
    var u := LittleEndian(mem[2 * i], mem[2 * i + 1], 0, 0);
    if u < 0x8000 then u else u - 0x1_0000
  }

  /** The 32-bit two's complement value at word index `i`. */
  function Word(mem: seq<byte>, i: nat): (x: Sample)
    requires 4 * i + 3 < |mem|
  {
    var u := LittleEndian(mem[4 * i], mem[4 * i + 1], mem[4 * i + 2], mem[4 * i + 3]);
    if u < 0x8000_0000 then u else u - 0x1_0000_0000
  }

  /** Byte `k` of the two's complement representation of `x`. */
  function ByteOf(x: int, k: nat): byte
    requires k < 4
  {
    var u := x % 0x1_0000_0000;
    match k
    case 0 => u % 0x100
    case 1 => u / 0x100 % 0x100
    case 2 => u / 0x100 / 0x100 % 0x100
    case 3 => u / 0x100 / 0x100 / 0x100
  }

  function WordBytes(x: Sample): (bs: seq<byte>)
    ensures |bs| == 4
  {
    [ByteOf(x, 0), ByteOf(x, 1), ByteOf(x, 2), ByteOf(x, 3)]
  }

  function HalfBytes(x: Sample16): (bs: seq<byte>)
    ensures |bs| == 2
  {
    [ByteOf(x, 0), ByteOf(x, 1)]
  }

  /** A stored word reads back as itself. */
  lemma WordRoundTrip(x: Sample)
    ensures Word(WordBytes(x), 0) == x
  {
    FourBytes(x % 0x1_0000_0000);
  }

  lemma FourBytes(u: nat)
    ensures LittleEndian(u % 0x100, u / 0x100 % 0x100, u / 0x100 / 0x100 % 0x100, u / 0x100 / 0x100 / 0x100) == u
  {
    var u1 := u / 0x100;
    var u2 := u1 / 0x100;
    assert u == 0x100 * u1 + u % 0x100 && u1 == 0x100 * u2 + u1 % 0x100;
    assert u2 == 0x100 * (u2 / 0x100) + u2 % 0x100;
  }

  /** The low bytes of a two's complement value are its value, or that plus 2^16 if it is negative. */
  lemma LowBytes(x: Sample16)
    ensures LittleEndian(ByteOf(x, 0), ByteOf(x, 1), 0, 0) == if x < 0 then x + 0x1_0000 else x
  {
    var low := if x < 0 then x + 0x1_0000 else x;
    var u := x % 0x1_0000_0000;
    assert u == if x < 0 then low + 0x100 * 0xff_ff00 else low;
    assert low == low / 0x100 * 0x100 + low % 0x100 && low / 0x100 < 0x100;
    SplitLow(u, low / 0x100, low % 0x100, if x < 0 then 0xffff else 0);
  }

  lemma SplitLow(u: nat, high: nat, low: nat, top: nat)
    requires high < 0x100 && low < 0x100 && u == 0x1_0000 * top + 0x100 * high + low
    ensures u % 0x100 == low && u / 0x100 % 0x100 == high
  {
    assert u / 0x100 == 0x100 * top + high;
  }

  /** A stored half-word reads back as itself. */
  lemma HalfRoundTrip(x: Sample16)
    ensures Half(HalfBytes(x), 0) == x
  {
    LowBytes(x);
  }

  /** Memory is little-endian: the low half of a word is its first half, and that of a small number is the number. */
  lemma LowHalfFirst(x: Sample16)
    ensures Half(WordBytes(x), 0) == x
  {
    LowBytes(x);
  }

  /** All the 32-bit words of a buffer. */
  function Words(mem: seq<byte>): (ws: seq<Sample>)
    ensures |ws| == |mem| / 4
  {
    seq(|mem| / 4, i requires 0 <= i < |mem| / 4 => Word(mem, i))
  }

  /** The words from index `from` on are the samples that had their indices. */
  ghost predicate Widened(was: seq<byte>, mem: seq<byte>, from: nat)
    requires |mem| == |was|
  {
    forall i :: from <= i < |mem| / 4 ==> Word(mem, i) == Half(was, i)
  }

  /** Writing one more word, below the others, leaves the others as they are. */
  lemma WidenedNext(was: seq<byte>, mem: seq<byte>, mem': seq<byte>, i: nat)
    requires |mem'| == |mem| == |was| && i < |mem| / 4 && Widened(was, mem, i + 1)
    requires Word(mem', i) == Half(was, i) && forall b :: 4 * i + 4 <= b < |mem| ==> mem'[b] == mem[b]
    ensures Widened(was, mem', i)
  {
    forall j | i < j < |mem| / 4
      ensures Word(mem', j) == Half(was, j)
    {
      SameWord(mem, mem', j);
    }
  }

  lemma SameWord(mem: seq<byte>, mem': seq<byte>, j: nat)
    requires |mem'| == |mem| && 4 * j + 3 < |mem|
    requires mem'[4 * j] == mem[4 * j] && mem'[4 * j + 1] == mem[4 * j + 1]
    requires mem'[4 * j + 2] == mem[4 * j + 2] && mem'[4 * j + 3] == mem[4 * j + 3]
    ensures Word(mem', j) == Word(mem, j)
  {
  }

  /** The loop of the interrupt handler, for a buffer of any number of words: after it,
      every word is the sign extension of the 16-bit sample that had its index. */
  method WidenInPlace(mem: array<byte>)
    requires mem.Length % 4 == 0
    modifies mem
    ensures forall i :: 0 <= i < mem.Length / 4 ==> Word(mem[..], i) == Half(old(mem[..]), i)
  {
    ghost var was := mem[..];
    var i := mem.Length / 4 - 1;
    while i >= 0
      invariant -1 <= i < mem.Length / 4
      invariant forall b :: 0 <= b < 4 * (i + 1) ==> mem[b] == was[b]
      invariant Widened(was, mem[..], i + 1)
    {
      ghost var before := mem[..];
      assert mem[2 * i] == was[2 * i] && mem[2 * i + 1] == was[2 * i + 1];
      var x := ReadHalf(mem, i);
      assert x == Half(was, i);
      WriteWord(mem, i, x);
      WidenedNext(was, before, mem[..], i);
      i := i - 1;
    }
  }

  method ReadHalf(mem: array<byte>, i: nat) returns (x: Sample16)
    requires 2 * i + 1 < mem.Length
    ensures x == Half(mem[..], i)
  {
    var u := LittleEndian(mem[2 * i], mem[2 * i + 1], 0, 0);
    x := if u < 0x8000 then u else u - 0x1_0000;
  }

  method WriteWord(mem: array<byte>, i: nat, x: Sample)
    requires 4 * i + 3 < mem.Length
    modifies mem
    ensures Word(mem[..], i) == x
    ensures forall b :: 0 <= b < mem.Length && !(4 * i <= b < 4 * i + 4) ==> mem[b] == old(mem[b])
  {
    var bs := WordBytes(x);
    mem[4 * i], mem[4 * i + 1], mem[4 * i + 2], mem[4 * i + 3] := bs[0], bs[1], bs[2], bs[3];
    WordRoundTrip(x);
  }

  /** What the DMA engine does: it packs 16-bit samples from the start of the buffer. */
  method FillByDma(mem: array<byte>, block: seq<Sample16>)
    requires 2 * |block| <= mem.Length
    modifies mem
    ensures forall i :: 0 <= i < |block| ==> Half(mem[..], i) == block[i]
  {
    for k := 0 to |block|
      invariant forall i :: 0 <= i < k ==> Half(mem[..], i) == block[i]
    {
      ghost var before := mem[..];
      var bs := HalfBytes(block[k]);
      mem[2 * k], mem[2 * k + 1] := bs[0], bs[1];
      HalfRoundTrip(block[k]);
      forall i | 0 <= i < k
        ensures Half(mem[..], i) == Half(before, i)
      {
      }
    }
  }
}
