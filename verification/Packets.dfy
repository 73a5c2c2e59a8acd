/** The SDK packet format: a 16-byte header with magic, device index, packet id and
    payload size, then the payload. */
module Packets {
  import opened LittleEndian

  datatype Packet = Packet(dev: nat, id: nat, data: seq<Byte>)

  const MAGIC: seq<Byte> := [0x4F, 0x52, 0x47, 0x42]

  const WORD: nat := 0x1_0000_0000

  /** The receivers count bytes in an int, so longer payloads have no meaning there. */
  const SIZE_LIMIT: nat := 0x8000_0000

  /** A packet whose header fields fit their words and whose size the receivers can count. */
  predicate Sendable(p: Packet) {
    p.dev < WORD && p.id < WORD && |p.data| < SIZE_LIMIT
  }

  function HeaderBytes(dev: nat, id: nat, size: nat): (h: seq<Byte>)
    ensures |h| == 16
  {
    MAGIC + LeBytes(dev, 4) + LeBytes(id, 4) + LeBytes(size, 4)
  }

  function Encode(p: Packet): (bs: seq<Byte>)
    ensures |bs| == 16 + |p.data|
  {
    HeaderBytes(p.dev, p.id, |p.data|) + p.data
  }

  function EncodeAll(ps: seq<Packet>): seq<Byte> {
    if ps == [] then [] else Encode(ps[0]) + EncodeAll(ps[1..])
  }

  /** The three header words behind whatever magic. */
  datatype Words = Words(dev: nat, id: nat, size: nat)

  function WordsOf(h: seq<Byte>): Words
    requires |h| == 12
  {
    Words(LeValue(h[..4]), LeValue(h[4..8]), LeValue(h[8..]))
  }

  /** What a receiver finds at the start of a stream: a packet and the rest, too few
      bytes for one, or a size it cannot count. */
  datatype Parsed = Got(packet: Packet, rest: seq<Byte>) | Incomplete | Oversized

  function Parse(s: seq<Byte>): (r: Parsed)
    ensures r.Got? ==> |r.rest| < |s|
  {
    if |s| < 16 then Incomplete
    else
      var w := WordsOf(s[4..16]);
      if w.size >= SIZE_LIMIT then Oversized
      else if |s| < 16 + w.size then Incomplete
      else Got(Packet(w.dev, w.id, s[16..16 + w.size]), s[16 + w.size..])
  }

  /** All whole packets at the start of a stream. */
  function ParseAll(s: seq<Byte>): seq<Packet>
    decreases |s|
  {
    match Parse(s)
    case Got(p, rest) => [p] + ParseAll(rest)
    case _ => []
  }

  lemma WordFits(x: nat)
    requires x < WORD
    ensures LeValue(LeBytes(x, 4)) == x
  {
    assert Pow256(4) == 256 * (256 * (256 * 256));
    ValueOfBytes(x, 4);
  }

  lemma Slices(a: seq<Byte>, b: seq<Byte>, c: seq<Byte>)
    requires |a| == |b| == |c| == 4
    ensures (a + b + c)[..4] == a && (a + b + c)[4..8] == b && (a + b + c)[8..] == c
  {
  }

  lemma HeaderTail(dev: nat, id: nat, size: nat)
    ensures HeaderBytes(dev, id, size) == MAGIC + (LeBytes(dev, 4) + LeBytes(id, 4) + LeBytes(size, 4))
    ensures HeaderBytes(dev, id, size)[4..] == LeBytes(dev, 4) + LeBytes(id, 4) + LeBytes(size, 4)
  {
  }

  /** The words are read back whatever stands in place of the magic. */
  lemma WordsRoundTrip(dev: nat, id: nat, size: nat)
    requires dev < WORD && id < WORD && size < WORD
    ensures WordsOf(HeaderBytes(dev, id, size)[4..]) == Words(dev, id, size)
  {
    HeaderTail(dev, id, size);
    Slices(LeBytes(dev, 4), LeBytes(id, 4), LeBytes(size, 4));
    WordFits(dev);
    WordFits(id);
    WordFits(size);
  }

  lemma Parts(a: seq<Byte>, b: seq<Byte>, c: seq<Byte>, d: seq<Byte>, s: seq<Byte>)
    requires |a| == 4 && |b| == 12 && s == a + (b + c) + d
    ensures s[4..16] == b && s[16..16 + |c|] == c && s[16 + |c|..] == d
  {
  }

  /** A packet at the start of a stream is parsed back, and nothing after it is touched.
      The four magic bytes play no part: any others do as well. */
  lemma ParseEncode(magic: seq<Byte>, p: Packet, rest: seq<Byte>)
    requires |magic| == 4 && Sendable(p)
    ensures Parse(magic + Encode(p)[4..] + rest) == Got(p, rest)
  {
    WordsRoundTrip(p.dev, p.id, |p.data|);
    var tail := HeaderBytes(p.dev, p.id, |p.data|)[4..];
    assert Encode(p)[4..] == tail + p.data;
    var s := magic + (tail + p.data) + rest;
    Parts(magic, tail, p.data, rest, s);
  }

  lemma ParsePacket(p: Packet, rest: seq<Byte>)
    requires Sendable(p)
    ensures Parse(Encode(p) + rest) == Got(p, rest)
  {
    ParseEncode(MAGIC, p, rest);
    assert MAGIC + Encode(p)[4..] == Encode(p);
  }

  /** Less than the whole of a packet is not yet a packet. */
  lemma ParsePartial(p: Packet, k: nat)
    requires Sendable(p) && k < |Encode(p)|
    ensures Parse(Encode(p)[..k]) == Incomplete
  {
    if k >= 16 {
      WordsRoundTrip(p.dev, p.id, |p.data|);
      assert Encode(p)[..k][4..16] == HeaderBytes(p.dev, p.id, |p.data|)[4..];
    }
  }

  /** The header is the letters ORGB and three little-endian words. */
  lemma HeaderIs(dev: nat, id: nat, size: nat)
    requires dev < WORD && id < WORD && size < WORD
    ensures var h, text := HeaderBytes(dev, id, size), "ORGB";
            && |text| == 4 && (forall i :: 0 <= i < 4 ==> h[i] == text[i] as int)
            && LeValue(h[4..8]) == dev && LeValue(h[8..12]) == id && LeValue(h[12..16]) == size
  {
    var h := HeaderBytes(dev, id, size);
    assert h[4..8] == LeBytes(dev, 4) && h[8..12] == LeBytes(id, 4) && h[12..16] == LeBytes(size, 4);
    WordFits(dev);
    WordFits(id);
    WordFits(size);
  }

  /** What is found at the start of any stream, by the words at their places. */
  lemma ParseIs(s: seq<Byte>)
    requires |s| >= 16
    ensures var size := LeValue(s[12..16]);
            match Parse(s)
            case Got(p, rest) =>
              && size < 0x8000_0000 && 16 + size <= |s| && p.data == s[16..16 + size] && rest == s[16 + size..]
              && p.dev == LeValue(s[4..8]) && p.id == LeValue(s[8..12])
            case Incomplete => size < 0x8000_0000 && |s| < 16 + size
            case Oversized => size >= 0x8000_0000
  {
    assert s[4..16] == s[4..8] + s[8..12] + s[12..16];
    Slices(s[4..8], s[8..12], s[12..16]);
  }

  predicate AllSendable(ps: seq<Packet>) {
    forall p :: p in ps ==> Sendable(p)
  }

  /** Packets written one after the other are read back exactly. */
  lemma {:induction false} ParseEncodeAll(ps: seq<Packet>)
    requires AllSendable(ps)
    ensures ParseAll(EncodeAll(ps)) == ps
  {
    if ps == [] {
    } else {
      ParsePacket(ps[0], EncodeAll(ps[1..]));
      ParseEncodeAll(ps[1..]);
    }
  }

  lemma TakeConcat(a: seq<Byte>, b: seq<Byte>, k: nat)
    requires k <= |a + b|
    ensures (a + b)[..k] == if k < |a| then a[..k] else a + b[..k - |a|]
  {
  }

  /** However much of the stream has arrived, the packets in it are the first ones sent, whole. */
  lemma {:induction false} ParsePrefix(ps: seq<Packet>, k: nat)
    requires AllSendable(ps) && k <= |EncodeAll(ps)|
    ensures ParseAll(EncodeAll(ps)[..k]) <= ps
  {
    if ps != [] {
      var first, more := Encode(ps[0]), EncodeAll(ps[1..]);
      if k < |first| {
        TakeConcat(first, more, k);
        ParsePartial(ps[0], k);
      } else {
        TakeConcat(first, more, k);
        ParsePacket(ps[0], more[..k - |first|]);
        ParsePrefix(ps[1..], k - |first|);
      }
    }
  }

  lemma {:induction false} EncodeConcat(a: seq<Packet>, b: seq<Packet>)
    ensures EncodeAll(a + b) == EncodeAll(a) + EncodeAll(b)
  {
    if a == [] {
      assert a + b == b;
    } else {
      assert (a + b)[1..] == a[1..] + b;
      EncodeConcat(a[1..], b);
    }
  }

  lemma EncodeSnoc(a: seq<Packet>, p: Packet)
    ensures EncodeAll(a + [p]) == EncodeAll(a) + Encode(p)
  {
    EncodeConcat(a, [p]);
    assert [p][1..] == [];
  }

  // ----- the magic is not insisted on -----

  /** What follows a header with these words. */
  function TakeBody(w: Words, body: seq<Byte>): Parsed {
    if w.size >= SIZE_LIMIT then Oversized
    else if |body| < w.size then Incomplete
    else Got(Packet(w.dev, w.id, body[..w.size]), body[w.size..])
  }

  lemma ParseParts(magic: seq<Byte>, h: seq<Byte>, body: seq<Byte>)
    requires |magic| == 4 && |h| == 12
    ensures Parse(magic + h + body) == TakeBody(WordsOf(h), body)
  {
    var s := magic + h + body;
    assert s[4..16] == h && s[16..] == body;
    var w := WordsOf(h);
    if w.size <= |body| {
      assert s[16..16 + w.size] == body[..w.size] && s[16 + w.size..] == body[w.size..];
    }
  }

  const LOW: nat := 0x100_0000

  /** A word whose bytes arrive one place late, behind byte b, and the byte that it leaves over. */
  lemma LateWord(b: Byte, x: nat)
    requires x < WORD
    ensures LeValue([b] + LeBytes(x, 4)[..3]) == b + 256 * (x % LOW)
    ensures LeBytes(x, 4)[3] == x / LOW
  {
    var w := LeBytes(x, 4);
    WordFits(x);
    assert Pow256(3) == LOW by {
      assert Pow256(3) == 256 * (256 * 256);
    }
    LeConcat(w[..3], w[3..]);
    LeBound(w[..3]);
    assert w[..3] + w[3..] == w && LeValue(w[3..]) == w[3];
    assert ([b] + w[..3])[1..] == w[..3];
    HighAndLow(w[3], LeValue(w[..3]));
  }

  lemma HighAndLow(high: nat, low: nat)
    requires low < LOW
    ensures (low + LOW * high) / LOW == high && (low + LOW * high) % LOW == low
  {
  }

  /** The words that a receiver reads from a header behind a stray byte. */
  function LateWords(dev: nat, id: nat, size: nat): Words {
    Words(0x42 + 256 * (dev % LOW), dev / LOW + 256 * (id % LOW), id / LOW + 256 * (size % LOW))
  }

  lemma LateHeader(b: Byte, dev: nat, id: nat, size: nat)
    requires dev < WORD && id < WORD && size < WORD
    ensures var s := [b] + HeaderBytes(dev, id, size);
            && s[4..16] == ([0x42] + LeBytes(dev, 4)[..3]) + ([LeBytes(dev, 4)[3]] + LeBytes(id, 4)[..3])
                         + ([LeBytes(id, 4)[3]] + LeBytes(size, 4)[..3])
            && s[16] == size / LOW
            && WordsOf(s[4..16]) == LateWords(dev, id, size)
  {
    LateWord(0x42, dev);
    LateWord(LeBytes(dev, 4)[3], id);
    LateWord(LeBytes(id, 4)[3], size);
    Slices([0x42] + LeBytes(dev, 4)[..3], [LeBytes(dev, 4)[3]] + LeBytes(id, 4)[..3],
           [LeBytes(id, 4)[3]] + LeBytes(size, 4)[..3]);
  }

  lemma Regroup(b: Byte, h: seq<Byte>, data: seq<Byte>, rest: seq<Byte>)
    requires |h| == 16
    ensures var s := [b] + h;
            [b] + (h + data) + rest == s[..4] + s[4..16] + ([s[16]] + data + rest)
  {
  }

  /** There is no resynchronisation: a stray byte before a packet shifts every byte of its
      header by one, so the packet is taken for one with these other words, whose payload
      starts with the last byte of the true size. */
  lemma StrayByte(b: Byte, p: Packet, rest: seq<Byte>)
    requires Sendable(p)
    ensures Parse([b] + Encode(p) + rest)
         == TakeBody(LateWords(p.dev, p.id, |p.data|), [|p.data| / LOW] + p.data + rest)
  {
    var s := [b] + HeaderBytes(p.dev, p.id, |p.data|);
    LateHeader(b, p.dev, p.id, |p.data|);
    var body := [s[16]] + p.data + rest;
    Regroup(b, HeaderBytes(p.dev, p.id, |p.data|), p.data, rest);
    ParseParts(s[..4], s[4..16], body);
  }

  /** A request without payload becomes another one, and leaves a byte to spoil the next. */
  lemma StrayByteBeforeRequest(b: Byte, dev: nat, id: nat)
    requires dev < WORD && id < LOW
    ensures Parse([b] + Encode(Packet(dev, id, [])))
         == Got(Packet(0x42 + 256 * (dev % LOW), dev / LOW + 256 * id, []), [0])
  {
    var p := Packet(dev, id, []);
    StrayByte(b, p, []);
    assert [b] + Encode(p) + [] == [b] + Encode(p) && [|p.data| / LOW] + p.data + [] == [0];
  }

  /** The packets for a receiver that stops at the first header without the magic. */
  function Insisting(s: seq<Byte>): seq<Packet>
    decreases |s|
  {
    match Parse(s)
    case Got(p, rest) => if s[..4] == MAGIC then [p] + Insisting(rest) else []
    case _ => []
  }

  /** Every packet that the receivers take begins with the magic. */
  predicate AllMagic(s: seq<Byte>)
    decreases |s|
  {
    match Parse(s)
    case Got(_, rest) => s[..4] == MAGIC && AllMagic(rest)
    case _ => true
  }

  /** The receivers take what an insisting one would if and only if every packet they take
      begins with the magic. */
  lemma {:induction false} MagicExact(s: seq<Byte>)
    ensures ParseAll(s) == Insisting(s) <==> AllMagic(s)
    ensures Insisting(s) <= ParseAll(s)
    decreases |s|
  {
    match Parse(s)
    case Got(p, rest) =>
      MagicExact(rest);
      assert ([p] + ParseAll(rest))[1..] == ParseAll(rest) && ([p] + Insisting(rest))[1..] == Insisting(rest);
    case _ =>
  }

  /** Whatever part of a stream of sent packets has arrived, they do begin with it. */
  lemma {:induction false} SentMagic(ps: seq<Packet>, k: nat)
    requires AllSendable(ps) && k <= |EncodeAll(ps)|
    ensures AllMagic(EncodeAll(ps)[..k])
  {
    if ps != [] {
      var first, more := Encode(ps[0]), EncodeAll(ps[1..]);
      if k < |first| {
        TakeConcat(first, more, k);
        ParsePartial(ps[0], k);
      } else {
        TakeConcat(first, more, k);
        ParsePacket(ps[0], more[..k - |first|]);
        HeaderTail(ps[0].dev, ps[0].id, |ps[0].data|);
        assert (first + more[..k - |first|])[..4] == MAGIC;
        SentMagic(ps[1..], k - |first|);
      }
    }
  }
}
