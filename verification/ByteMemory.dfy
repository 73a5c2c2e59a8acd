/** OP_STRB_I and OP_LODB_I act on the data segment exactly as little-endian
    accesses to a flat array of bytes. */
module ByteMemory {
  import opened LittleEndian
  import opened Cells
  import opened Memories
  import opened Machine
  import opened Simulation

  // ----- the data segment as bytes -----

  ghost function Flat(h: seq<Cell>, l: Layout): (bs: seq<Byte>)
    requires l.data + l.dataLen <= |h|
    ensures |bs| == 8 * l.dataLen
  {
    seq(8 * l.dataLen, k requires 0 <= k < 8 * l.dataLen => BytesOf(h[l.data + k / 8])[k % 8])
  }

  /** The accesses a flat byte array accepts: inside the array and inside one aligned group of 8. */
  predicate Accepts(size: nat, a: Cell, w: Cell) {
    ByteWidth(w) && a % 8 + w <= 8 && a < size
  }

  lemma FlatAt(h: seq<Cell>, l: Layout, a: nat, w: nat)
    requires l.data + l.dataLen <= |h| && a < 8 * l.dataLen && a % 8 + w <= 8
    ensures a + w <= 8 * l.dataLen
    ensures Flat(h, l)[a..a + w] == BytesOf(h[l.data + a / 8])[a % 8..a % 8 + w]
  {
    var bs := Flat(h, l)[a..a + w];
    forall j | 0 <= j < w
      ensures bs[j] == BytesOf(h[l.data + a / 8])[a % 8..a % 8 + w][j]
    {
      assert (a + j) / 8 == a / 8 && (a + j) % 8 == a % 8 + j;
      FlatByte(h, l, a + j);
    }
  }

  lemma FlatByte(h: seq<Cell>, l: Layout, k: nat)
    requires l.data + l.dataLen <= |h| && k < 8 * l.dataLen
    ensures Flat(h, l)[k] == BytesOf(h[l.data + k / 8])[k % 8]
  {
  }

  lemma BytesOfCellOf(bs: seq<Byte>)
    requires |bs| == 8
    ensures BytesOf(CellOf(bs)) == bs
  {
    BytesOfValue(bs);
  }

  /** h' is h with w bytes spliced in at byte address a of the segment. */
  ghost predicate Spliced(h: seq<Cell>, h': seq<Cell>, l: Layout, a: nat, put: seq<Byte>) {
    && |h'| == |h| && l.data + l.dataLen <= |h| && a + |put| <= 8 * l.dataLen
    && Flat(h', l) == Flat(h, l)[..a] + put + Flat(h, l)[a + |put|..]
    && forall p :: 0 <= p < |h| && !(l.data <= p < l.data + l.dataLen) ==> h'[p] == h[p]
  }

  lemma InCell(a: nat, w: nat, len: nat)
    requires a < 8 * len && a % 8 + w <= 8
    ensures a + w <= 8 * len && a / 8 < len
  {
  }

  lemma FlatStore(h: seq<Cell>, l: Layout, a: nat, w: nat, v: Cell)
    requires l.data + l.dataLen <= |h| && a < 8 * l.dataLen && a % 8 + w <= 8
    ensures l.data + a / 8 < |h|
    ensures Spliced(h, h[l.data + a / 8 := MergeBytes(h[l.data + a / 8], a % 8, w, v)], l, a, StoredBytes(v, w))
  {
    InCell(a, w, l.dataLen);
    var c := h[l.data + a / 8];
    var put := StoredBytes(v, w);
    var cell := BytesOf(c)[..a % 8] + put + BytesOf(c)[a % 8 + w..];
    BytesOfCellOf(cell);
    var h' := h[l.data + a / 8 := MergeBytes(c, a % 8, w, v)];
    SpliceFlat(h, h', l, a, put, cell);
  }

  lemma SpliceFlat(h: seq<Cell>, h': seq<Cell>, l: Layout, a: nat, put: seq<Byte>, cell: seq<Byte>)
    requires l.data + l.dataLen <= |h| && a < 8 * l.dataLen && a % 8 + |put| <= 8
    requires l.data + a / 8 < |h| && |h'| == |h| && h' == h[l.data + a / 8 := h'[l.data + a / 8]]
    requires cell == BytesOf(h[l.data + a / 8])[..a % 8] + put + BytesOf(h[l.data + a / 8])[a % 8 + |put|..]
    requires BytesOf(h'[l.data + a / 8]) == cell
    ensures Spliced(h, h', l, a, put)
  {
    InCell(a, |put|, l.dataLen);
    var f, g := Flat(h, l), Flat(h', l);
    var e := f[..a] + put + f[a + |put|..];
    forall k | 0 <= k < 8 * l.dataLen
      ensures g[k] == e[k]
    {
      if k / 8 == a / 8 {
        assert k - k % 8 == a - a % 8;
      }
    }
  }

  /** The cell that a segment address names. */
  lemma SegmentRead(s: Vm, l: Layout, a: Cell)
    requires Segment(s, l)
    ensures s.DataPtr(CellStart(a)) == if a < 8 * l.dataLen then Some(l.data + a / 8) else None
  {
    assert s.mem.data(Plus(s.dat, CellStart(a))) ==
           if CellStart(a) < 8 * l.dataLen then Some(l.data + CellStart(a) / 8) else None;
  }

  lemma SpanRejects(size: nat, a: Cell, w: Cell)
    ensures Accepts(size, a, w) <==> !SpansCells(a, w) && ByteWidth(w) && a < size
    ensures Accepts(size, a, w) ==> a % 8 + w <= 8
  {
    if ByteWidth(w) {
      SpansIs(a, w);
    }
  }

  /** OP_STRB_I: accepted exactly on a width of 1, 2 or 4 inside one cell of the
      segment; then it writes its own bytes and no others; otherwise nothing changes. */
  lemma StoreBytes(s: Vm, l: Layout, w: Cell)
    requires Segment(s, l)
    ensures var r := ExecStore(StrbI, w, s);
            if Accepts(8 * l.dataLen, s.alt, w) then
              && r.Ok? && r.value == s.(mem := s.mem.(host := r.value.mem.host))
              && Spliced(s.mem.host, r.value.mem.host, l, s.alt, StoredBytes(s.pri, w))
            else r.Stop? && r.vm == s
  {
    var p := s.DataPtr(CellStart(s.alt));
    SegmentRead(s, l, s.alt);
    SpanRejects(8 * l.dataLen, s.alt, w);
    if Accepts(8 * l.dataLen, s.alt, w) {
      FlatStore(s.mem.host, l, s.alt, w, s.pri);
      assert ReadData(s, CellStart(s.alt)) == Ok(s.mem.host[p.value]);
      var c := MergeBytes(s.mem.host[p.value], s.alt % 8, w, s.pri);
      assert ExecStore(StrbI, w, s) == WriteData(s, CellStart(s.alt), c);
    }
  }

  lemma LodbIs(s: Vm, l: Layout, w: Cell)
    requires Segment(s, l)
    ensures var r := ExecLoad(LodbI, w, s);
            if Accepts(8 * l.dataLen, s.pri, w) then
              && s.pri % 8 + w <= 8 && l.data + s.pri / 8 < |s.mem.host|
              && r == Ok(s.(pri := ExtractBytes(s.mem.host[l.data + s.pri / 8], s.pri % 8, w)))
            else r.Stop? && r.vm == s
  {
    SegmentRead(s, l, s.pri);
    SpanRejects(8 * l.dataLen, s.pri, w);
  }

  /** OP_LODB_I: under the same condition it loads the little-endian value of its bytes. */
  lemma LoadBytes(s: Vm, l: Layout, w: Cell)
    requires Segment(s, l)
    ensures var r := ExecLoad(LodbI, w, s);
            if Accepts(8 * l.dataLen, s.pri, w) then
              && s.pri + w <= 8 * l.dataLen && r.Ok? && r.value == s.(pri := r.value.pri)
              && r.value.pri == LeValue(Flat(s.mem.host, l)[s.pri..s.pri + w])
            else r.Stop? && r.vm == s
  {
    LodbIs(s, l, w);
    if Accepts(8 * l.dataLen, s.pri, w) {
      FlatAt(s.mem.host, l, s.pri, w);
    }
  }

  // ----- sequences of accesses -----

  datatype ByteOp = Put(at: Cell, width: Cell, value: Cell) | Get(at: Cell, width: Cell)

  /** One access: the machine afterwards and, unless it was rejected, PRI. */
  type Access = (Vm, ByteOp) -> (Vm, Option<Cell>)

  /** What an instruction's result leaves and answers. */
  function Answered(s: Vm, r: Result<Vm>): (Vm, Option<Cell>) {
    match r
    case Ok(s1) => (s1, Some(s1.pri))
    case Stop(_, s1) => (s1, None)
    case Undefined => (s, None)
  }

  /** Each access by its instruction, with the registers loaded first. */
  function ByInstruction(): Access {
    (s: Vm, op: ByteOp) =>
      Answered(s, if op.Put? then ExecStore(StrbI, op.width, s.(alt := op.at, pri := op.value))
                  else ExecLoad(LodbI, op.width, s.(pri := op.at)))
  }

  function All(access: Access, s: Vm, ops: seq<ByteOp>): (Vm, seq<Option<Cell>>)
    decreases |ops|
  {
    if ops == [] then (s, [])
    else
      var (s1, out) := access(s, ops[0]);
      var (s2, outs) := All(access, s1, ops[1..]);
      (s2, [out] + outs)
  }

  /** The same access on a flat byte array. */
  ghost function OnBytes(bs: seq<Byte>, op: ByteOp): (r: (seq<Byte>, Option<nat>))
    requires |bs| % 8 == 0
    ensures |r.0| == |bs|
  {
    if !Accepts(|bs|, op.at, op.width) then (bs, None)
    else
      InCell(op.at, op.width, |bs| / 8);
      match op
      case Put(a, w, v) => (bs[..a] + StoredBytes(v, w) + bs[a + w..], Some(v))
      case Get(a, w) => (bs, Some(LeValue(bs[a..a + w])))
  }

  ghost function OnBytesAll(bs: seq<Byte>, ops: seq<ByteOp>): (seq<Byte>, seq<Option<nat>>)
    requires |bs| % 8 == 0
    decreases |ops|
  {
    if ops == [] then (bs, [])
    else
      var (b1, out) := OnBytes(bs, ops[0]);
      var (b2, outs) := OnBytesAll(b1, ops[1..]);
      (b2, [out] + outs)
  }

  /** The segment and the answer r leaves are those of the flat array. */
  ghost predicate ActsOn(s: Vm, l: Layout, op: ByteOp, r: (Vm, Option<Cell>)) {
    && Segment(s, l) && Segment(r.0, l)
    && (Flat(r.0.mem.host, l), r.1) == OnBytes(Flat(s.mem.host, l), op)
  }

  ghost predicate ActsOnAll(s: Vm, l: Layout, ops: seq<ByteOp>, r: (Vm, seq<Option<Cell>>)) {
    && Segment(s, l) && Segment(r.0, l)
    && (Flat(r.0.mem.host, l), r.1) == OnBytesAll(Flat(s.mem.host, l), ops)
  }

  lemma InstructionActs(s: Vm, l: Layout, op: ByteOp)
    requires Segment(s, l)
    ensures ActsOn(s, l, op, ByInstruction()(s, op))
  {
    match op
    case Put(a, w, v) => PutActs(s, l, a, w, v);
    case Get(a, w) => GetActs(s, l, a, w);
  }

  lemma PutActs(s: Vm, l: Layout, a: Cell, w: Cell, v: Cell)
    requires Segment(s, l)
    ensures ActsOn(s, l, Put(a, w, v), ByInstruction()(s, Put(a, w, v)))
  {
    StoreBytes(s.(alt := a, pri := v), l, w);
    PutOutcome(s, l, a, w, v, ExecStore(StrbI, w, s.(alt := a, pri := v)));
  }

  lemma PutOutcome(s: Vm, l: Layout, a: Cell, w: Cell, v: Cell, r: Result<Vm>)
    requires Segment(s, l)
    requires if Accepts(8 * l.dataLen, a, w) then
               && r.Ok? && r.value == s.(alt := a, pri := v, mem := s.mem.(host := r.value.mem.host))
               && Spliced(s.mem.host, r.value.mem.host, l, a, StoredBytes(v, w))
             else r.Stop? && r.vm == s.(alt := a, pri := v)
    ensures ActsOn(s, l, Put(a, w, v), Answered(s, r))
  {
  }

  lemma GetActs(s: Vm, l: Layout, a: Cell, w: Cell)
    requires Segment(s, l)
    ensures ActsOn(s, l, Get(a, w), ByInstruction()(s, Get(a, w)))
  {
    LoadBytes(s.(pri := a), l, w);
    GetOutcome(s, l, a, w, ExecLoad(LodbI, w, s.(pri := a)));
  }

  lemma GetOutcome(s: Vm, l: Layout, a: Cell, w: Cell, r: Result<Vm>)
    requires Segment(s, l)
    requires if Accepts(8 * l.dataLen, a, w) then
               && a + w <= 8 * l.dataLen && r.Ok? && r.value == s.(pri := r.value.pri)
               && r.value.pri == LeValue(Flat(s.mem.host, l)[a..a + w])
             else r.Stop? && r.vm == s.(pri := a)
    ensures ActsOn(s, l, Get(a, w), Answered(s, r))
  {
  }

  lemma {:induction false} AllRefine(access: Access, s: Vm, l: Layout, ops: seq<ByteOp>)
    requires Segment(s, l)
    requires forall s: Vm, op: ByteOp :: Segment(s, l) ==> ActsOn(s, l, op, access(s, op))
    ensures ActsOnAll(s, l, ops, All(access, s, ops))
    decreases |ops|
  {
    if ops != [] {
      assert ActsOn(s, l, ops[0], access(s, ops[0]));
      AllRefine(access, access(s, ops[0]).0, l, ops[1..]);
    }
  }

  /** Any sequence of byte loads and stores, rejected ones included, leaves the
      segment and gives the answers of the flat byte array. */
  lemma BytesRefine(s: Vm, l: Layout, ops: seq<ByteOp>)
    requires Segment(s, l)
    ensures ActsOnAll(s, l, ops, All(ByInstruction(), s, ops))
  {
    forall s: Vm, op: ByteOp | Segment(s, l)
      ensures ActsOn(s, l, op, ByInstruction()(s, op))
    {
      InstructionActs(s, l, op);
    }
    AllRefine(ByInstruction(), s, l, ops);
  }
}
