/** Address translation. Host memory is one sequence of cells and a host pointer
    is an index into it, so that buffers may overlap, abut or be disjoint. */
module Memories {
  import opened Cells

  datatype Option<+T> = None | Some(value: T)

  // The paged backing with five index bits, as every use in the repository has it.
  const PAGE_BYTES: nat := 0x800_0000_0000_0000

  /** One page table entry: a host buffer (or none) and its size in bytes. */
  datatype Mapping = Mapping(buf: Option<nat>, size: nat)

  const FREE_PAGE := Mapping(None, 0)

  type Pages = p: seq<Mapping> | |p| == 32 witness seq(32, _ => FREE_PAGE)

  function PageIndex(va: Cell): (i: nat)
    ensures i < 32
  {
    va / 0x800_0000_0000_0000
  }

  function PageOffset(va: Cell): nat {
    va % 0x800_0000_0000_0000
  }

  function MakeVa(index: nat, offset: nat): Cell {
    Wrap(index * 0x800_0000_0000_0000 + offset)
  }

  datatype Backing =
    | Paged(pages: Pages)
    | Contiguous(buf: Option<nat>, size: nat)
  {
    /** The host cell behind a virtual address, if the access is allowed. */
    function Translate(va: Cell): Option<nat> {
      match this
      case Paged(pages) =>
        var m := pages[PageIndex(va)];
        if va % 8 != 0 || m.buf.None? || PageOffset(va) >= m.size then None
        else Some(m.buf.value + PageOffset(va) / 8)
      case Contiguous(buf, size) =>
        if va >= size || buf.None? then None else Some(buf.value + va / 8)
    }
  }

  /** What the machine knows of a backing: the host cell behind each address. */
  type Translation = Cell -> Option<nat>

  /** Host memory with a code and a data translation: Harvard when they come from
      two backings, von Neumann when from one. A pointer past the end of host memory
      is outside the contract of the source and reads as a failed translation. */
  datatype Memory = Memory(host: seq<Cell>, code: Translation, data: Translation) {
    function Data(va: Cell): (p: Option<nat>)
      ensures p.Some? ==> p.value < |host|
    {
      var p := data(va);
      if p.Some? && p.value < |host| then p else None
    }

    function Code(va: Cell): (p: Option<nat>)
      ensures p.Some? ==> p.value < |host|
    {
      var p := code(va);
      if p.Some? && p.value < |host| then p else None
    }

    function Store(p: nat, x: Cell): Memory
      requires p < |host|
    {
      this.(host := host[p := x])
    }

    /** Host cells that some data address reaches. */
    ghost predicate DataCell(p: nat) {
      exists va: Cell :: Data(va) == Some(p)
    }
  }
}
