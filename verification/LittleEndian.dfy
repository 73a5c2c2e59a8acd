/** Little-endian byte strings, shared by the image loader, the byte-wide
    instructions of the virtual machine, the packet header and the profile file. */
module LittleEndian {
  import opened Bitwise

  type Byte = b: int | 0 <= b < 256

  function Pow256(n: nat): (p: nat)
    ensures p > 0
  {
    if n == 0 then 1 else 256 * Pow256(n - 1)
  }

  function LeValue(bs: seq<Byte>): nat {
    if bs == [] then 0 else bs[0] + 256 * LeValue(bs[1..])
  }

  function LeBytes(x: nat, n: nat): (bs: seq<Byte>)
    ensures |bs| == n
  {
    if n == 0 then [] else [x % 256] + LeBytes(x / 256, n - 1)
  }

  lemma {:induction false} LeBound(bs: seq<Byte>)
    ensures LeValue(bs) < Pow256(|bs|)
  {
    if bs == [] {
    } else {
      LeBound(bs[1..]);
    }
  }

  lemma {:induction false} LeConcat(a: seq<Byte>, b: seq<Byte>)
    ensures LeValue(a + b) == LeValue(a) + Pow256(|a|) * LeValue(b)
  {
    if a == [] {
      assert a + b == b;
    } else {
      assert (a + b)[1..] == a[1..] + b;
      LeConcat(a[1..], b);
      MulAssoc(256, Pow256(|a| - 1), LeValue(b));
    }
  }

  /** Decoding undoes encoding ... */
  lemma {:induction false} ValueOfBytes(x: nat, n: nat)
    requires x < Pow256(n)
    ensures LeValue(LeBytes(x, n)) == x
  {
    if n == 0 {
    } else {
      ValueOfBytes(x / 256, n - 1);
      assert LeBytes(x, n)[1..] == LeBytes(x / 256, n - 1);
    }
  }

  /** ... and encoding undoes decoding. */
  lemma {:induction false} BytesOfValue(bs: seq<Byte>)
    ensures LeBytes(LeValue(bs), |bs|) == bs
  {
    if bs == [] {
    } else {
      BytesOfValue(bs[1..]);
      assert LeValue(bs) % 256 == bs[0] && LeValue(bs) / 256 == LeValue(bs[1..]);
      assert bs == [bs[0]] + bs[1..];
    }
  }

  lemma {:induction false} Pow256IsPow2(n: nat)
    ensures Pow256(n) == Pow2(8 * n)
  {
    if n == 0 {
    } else {
      Pow256IsPow2(n - 1);
      Pow2Add(8, 8 * (n - 1));
      assert Pow2(8) == 256;
    }
  }

  /** read_le: accumulates from the most significant byte down with shift and or. */
  method ReadLe(buf: seq<Byte>, p: nat, width: nat) returns (t: nat)
    requires p + width <= |buf|
    ensures t == LeValue(buf[p..p + width])
  {
    t := 0;
    var i := width;
    while i > 0
      invariant 0 <= i <= width
      invariant t == LeValue(buf[p + i..p + width])
    {
      i := i - 1;
      assert Pow2(8) == 256;
      OrLow(8, t, buf[p + i], t * 256);
      assert buf[p + i..p + width][1..] == buf[p + i + 1..p + width];
      t := Bits(Or, t * 256, buf[p + i]);
    }
  }
}
