/** The listener threads of client and server, and the sending of one packet. */
module NetworkThreads {
  import opened LittleEndian
  import opened Memories
  import opened Packets
  import opened Senders

  /** The packet header that is filled in through a pointer and sent as it lies in memory. */
  class NetPacketHeader {
    var magic: seq<Byte>
    var dev: nat
    var id: nat
    var size: nat

    constructor () {
      magic, dev, id, size := [], 0, 0, 0;
    }

    method InitNetPacketHeader(dev: nat, id: nat, size: nat)
      modifies this
      ensures Image() == HeaderBytes(dev, id, size) && this.size == size
    {
      magic := MAGIC;
      this.dev, this.id, this.size := dev, id, size;
    }

    /** The bytes of the struct on a little-endian machine. */
    function Image(): seq<Byte>
      reads this
    {
      magic + LeBytes(dev, 4) + LeBytes(id, 4) + LeBytes(size, 4)
    }
  }

  /** A socket: bytes that are still to arrive, bytes sent, and whether it has failed. */
  class Connection {
    var incoming: seq<Byte>
    var outgoing: seq<Byte>
    var broken: bool

    constructor (incoming: seq<Byte>)
      ensures this.incoming == incoming && outgoing == [] && !broken
    {
      this.incoming, outgoing, broken := incoming, [], false;
    }

    /** recv_select: between one and len of the bytes to come, however the transport has
        chopped them; nothing when the peer is done, or when select or recv fails, which
        can happen at any time. */
    method Recv(len: nat) returns (n: int, bytes: seq<Byte>)
      requires 0 < len < SIZE_LIMIT
      modifies this`incoming, this`broken
      ensures n <= len && |bytes| == (if n > 0 then n else 0)
      ensures |bytes| <= |old(incoming)|
      ensures bytes == old(incoming)[..|bytes|] && incoming == old(incoming)[|bytes|..]
      ensures n > 0 ==> broken == old(broken)
      ensures n <= 0 ==> incoming == [] || broken
    {
      n, bytes := 0, [];
      if incoming == [] { return; }
      var fails: bool := *;
      if fails {
        broken := true;
        n := -1;
        return;
      }
      n :| 1 <= n <= len && n <= |incoming|;
      bytes, incoming := incoming[..n], incoming[n..];
    }

    /** A complete send. */
    method Send(bytes: seq<Byte>)
      modifies this`outgoing
      ensures outgoing == old(outgoing) + bytes
    {
      outgoing := outgoing + bytes;
    }
  }

  /** A send function between lock and unlock. */
  method SendPacket(conn: Connection, p: Packet)
    modifies conn`outgoing
    ensures conn.outgoing == old(conn.outgoing) + Encode(p)
  {
    var header := new NetPacketHeader();
    header.InitNetPacketHeader(p.dev, p.id, |p.data|);
    conn.Send(header.Image());
    if header.size > 0 {
      conn.Send(p.data);
    }
  }

  class Listener {
    const conn: Connection
    var delivered: seq<Packet>

    constructor (conn: Connection)
      ensures this.conn == conn && delivered == []
    {
      this.conn, delivered := conn, [];
    }

    /** Four bytes one at a time; a byte that is not the expected one is consumed all the same. */
    method ReadMagic() returns (ok: bool, mismatches: nat)
      modifies conn`incoming, conn`broken
      ensures ok ==> |old(conn.incoming)| >= 4 && conn.incoming == old(conn.incoming)[4..]
      ensures ok ==> conn.broken == old(conn.broken)
      ensures ok ==> (mismatches == 0 <==> old(conn.incoming)[..4] == MAGIC)
      ensures !ok ==> |old(conn.incoming)| < 4 || conn.broken
    {
      ok, mismatches := true, 0;
      ghost var stream := conn.incoming;
      var i := 0;
      while i < 4
        invariant i <= 4 && i <= |stream| && conn.incoming == stream[i..] && conn.broken == old(conn.broken)
        invariant mismatches == 0 <==> stream[..i] == MAGIC[..i]
      {
        var n, bytes := conn.Recv(1);
        if n <= 0 { return false, mismatches; }
        assert bytes[0] == stream[i] && stream[i..][1..] == stream[i + 1..];
        assert stream[..i + 1] == stream[..i] + [bytes[0]] && MAGIC[..i + 1] == MAGIC[..i] + [MAGIC[i]];
        if bytes[0] != MAGIC[i] {
          mismatches := mismatches + 1;
        }
        i := i + 1;
      }
    }

    static lemma NextBytes(s: seq<Byte>, k: nat, n: nat)
      requires k + n <= |s|
      ensures s[..k] + s[k..][..n] == s[..k + n] && s[k..][n..] == s[k + n..]
    {
    }

    /** The loops that read the rest of the header and the payload. */
    method ReadFully(len: nat) returns (ok: bool, data: seq<Byte>)
      requires 0 < len < SIZE_LIMIT
      modifies conn`incoming, conn`broken
      ensures ok ==> len <= |old(conn.incoming)| && conn.broken == old(conn.broken)
      ensures ok ==> data == old(conn.incoming)[..len] && conn.incoming == old(conn.incoming)[len..]
      ensures !ok ==> |old(conn.incoming)| < len || conn.broken
    {
      ok, data := true, [];
      ghost var stream := conn.incoming;
      while |data| < len
        invariant |data| <= len && |data| <= |stream| && conn.broken == old(conn.broken)
        invariant data == stream[..|data|] && conn.incoming == stream[|data|..]
        decreases len - |data|
      {
        var n, bytes := conn.Recv(len - |data|);
        if n <= 0 { return false, data; }
        NextBytes(stream, |data|, n);
        data := data + bytes;
      }
    }

    /** One round of the listener: a whole packet, or the end. */
    method ReadPacket() returns (ok: bool, p: Packet)
      modifies conn`incoming, conn`broken
      ensures ok ==> Parse(old(conn.incoming)) == Got(p, conn.incoming) && conn.broken == old(conn.broken)
      ensures !ok ==> !Parse(old(conn.incoming)).Got? || conn.broken
    {
      p := Packet(0, 0, []);
      ghost var stream := conn.incoming;
      var mismatches, words, data;
      ok, mismatches := ReadMagic();
      if !ok { return; }
      ok, words := ReadFully(12);
      if !ok { return; }
      NextBytes(stream, 4, 12);
      assert words == stream[4..16];
      var w := WordsOf(words);
      if w.size >= SIZE_LIMIT { return false, p; }
      data := [];
      if w.size > 0 {
        ok, data := ReadFully(w.size);
        if !ok { return; }
      }
      NextBytes(stream, 16, w.size);
      assert stream[16..16 + w.size] == stream[16..][..w.size];
      return true, Packet(w.dev, w.id, data);
    }

    /** One round of the thread: a packet handed on, or the end. */
    method Round() returns (ok: bool)
      requires !conn.broken
      modifies this`delivered, conn`incoming, conn`broken
      ensures ok ==> !conn.broken && |conn.incoming| < |old(conn.incoming)| && |delivered| > 0
      ensures ok ==> delivered[..|delivered| - 1] == old(delivered)
      ensures ok ==> ParseAll(old(conn.incoming)) == [delivered[|delivered| - 1]] + ParseAll(conn.incoming)
      ensures !ok ==> delivered == old(delivered) && (conn.broken || ParseAll(old(conn.incoming)) == [])
    {
      var online: bool := *;
      if !online {
        conn.broken := true;
        return false;
      }
      var p;
      ok, p := ReadPacket();
      if ok {
        delivered := delivered + [p];
      }
    }

    static lemma HandOn(before: seq<Packet>, after: seq<Packet>, left: seq<Packet>, rest: seq<Packet>)
      requires |after| > 0 && after[..|after| - 1] == before && left == [after[|after| - 1]] + rest
      ensures after + rest == before + left
    {
      assert after == before + [after[|after| - 1]];
    }

    /** ListenThreadFunction, with the packets it hands on in delivered: whatever the
        transport does, they are the first packets of the stream, and all of them unless
        the connection fails or the thread is told to stop. */
    method ListenThread()
      requires delivered == [] && !conn.broken
      modifies this`delivered, conn`incoming, conn`broken
      ensures delivered <= ParseAll(old(conn.incoming))
      ensures !conn.broken ==> delivered == ParseAll(old(conn.incoming))
    {
      ghost var all, left := ParseAll(conn.incoming), ParseAll(conn.incoming);
      var ok := true;
      while ok
        invariant all == delivered + left
        invariant if ok then !conn.broken && left == ParseAll(conn.incoming) else conn.broken || left == []
        decreases if ok then 1 else 0, |conn.incoming|
      {
        ghost var before := delivered;
        ok := Round();
        if ok {
          HandOn(before, delivered, left, ParseAll(conn.incoming));
          left := ParseAll(conn.incoming);
        } else if !conn.broken {
          left := [];
        }
      }
    }
  }

  /** A listener on what k bytes of the senders' wire have brought so far: it gets the
      first packets in acquisition order, and every packet once no send is under way and
      all bytes have arrived. */
  method Receive(conn: Connection, ghost queues: seq<seq<Packet>>, ghost schedule: seq<nat>, ghost k: nat)
    returns (got: seq<Packet>)
    requires QueuesSendable(queues) && k <= |Run(Start(queues), schedule).wire|
    requires conn.incoming == Run(Start(queues), schedule).wire[..k] && !conn.broken
    modifies conn
    ensures var s := Run(Start(queues), schedule);
            && got <= PacketsOf(s.log)
            && (k == |s.wire| && s.holder == None && !conn.broken ==> got == PacketsOf(s.log))
  {
    Framing(queues, schedule, k);
    ghost var wire := Run(Start(queues), schedule).wire;
    assert k == |wire| ==> wire[..k] == wire;
    var listener := new Listener(conn);
    listener.ListenThread();
    got := listener.delivered;
  }
}
