/** NOR flash and the write callback of delta.c as functions: programming only
    clears bits, erasing sets a page to ones, and a page is erased each time the
    write counter reaches the page size. */
module FlashSpec {
  import opened Bytes

  const PAGE_SIZE: int := 0x1000
  const HEADER_SIZE: int := 8
  const ERASED: byte := 0xFF

  /** The fixed partitions: running image, new image, patch. */
  datatype Layout = Layout(primaryOffset: nat, primarySize: nat, secondaryOffset: nat, secondarySize: nat,
                           storageOffset: nat, storageSize: nat)

  /** Disjoint, in this order, the new image's slot made of whole pages. */
  predicate ValidLayout(l: Layout, deviceSize: nat) {
    && 0 < l.primarySize && l.primaryOffset + l.primarySize <= l.secondaryOffset
    && l.secondaryOffset % PAGE_SIZE == 0 && l.secondarySize % PAGE_SIZE == 0 && l.secondarySize > 0
    && l.secondaryOffset + l.secondarySize <= l.storageOffset
    && HEADER_SIZE <= l.storageSize && l.storageOffset + l.storageSize <= deviceSize
  }

  /** flash_write: bits can only be cleared. */
  function Program(mem: seq<byte>, offset: nat, data: seq<byte>): (r: seq<byte>)
    requires offset + |data| <= |mem|
    ensures |r| == |mem|
    ensures forall i :: 0 <= i < |mem| ==>
      r[i] == if offset <= i < offset + |data| then BitAnd(mem[i], data[i - offset]) else mem[i]
  {
    seq(|mem|, i requires 0 <= i < |mem| =>
      if offset <= i < offset + |data| then BitAnd(mem[i], data[i - offset]) else mem[i])
  }

  /** flash_erase of one page. */
  function ErasePage(mem: seq<byte>, start: nat): (r: seq<byte>)
    requires start + PAGE_SIZE <= |mem|
    ensures |r| == |mem|
    ensures forall i :: 0 <= i < |mem| ==> r[i] == if start <= i < start + PAGE_SIZE then ERASED else mem[i]
  {
    seq(|mem|, i requires 0 <= i < |mem| => if start <= i < start + PAGE_SIZE then ERASED else mem[i])
  }

  function PageStart(offset: nat): (s: nat)
    ensures s <= offset < s + PAGE_SIZE && s % PAGE_SIZE == 0
  {
    offset - offset % PAGE_SIZE
  }

  /** The target side of struct flash_mem. */
  datatype Pen = Pen(mem: seq<byte>, pos: nat, writeBuf: nat)

  datatype Written = Written(ok: bool, pen: Pen)

  function FlashEnd(l: Layout): nat {
    l.secondaryOffset + l.secondarySize
  }

  /** delta_flash_write */
  function Write(l: Layout, p: Pen, data: seq<byte>): Written {
    var end, count := p.pos + |data|, p.writeBuf + |data|;
    if count >= PAGE_SIZE && PageStart(end) + PAGE_SIZE > |p.mem| then Written(false, p.(writeBuf := count))
    else
      var mem := if count >= PAGE_SIZE then ErasePage(p.mem, PageStart(end)) else p.mem;
      var count' := if count >= PAGE_SIZE then 0 else count;
      if end > |mem| then Written(false, Pen(mem, p.pos, count'))
      else Written(end < FlashEnd(l), Pen(Program(mem, p.pos, data), end, count'))
  }

  /** A write succeeds exactly when the slot keeps at least one free byte; it leaves
      everything below the slot alone, and above it too unless it fails. */
  lemma WriteEffect(l: Layout, p: Pen, data: seq<byte>)
    requires ValidLayout(l, |p.mem|) && l.secondaryOffset <= p.pos < FlashEnd(l)
    ensures var w := Write(l, p, data);
      && |w.pen.mem| == |p.mem|
      && (w.ok <==> p.pos + |data| < FlashEnd(l))
      && (w.ok ==> w.pen.pos == p.pos + |data|)
      && (forall i :: 0 <= i < l.secondaryOffset ==> w.pen.mem[i] == p.mem[i])
    ensures var above := if p.pos + |data| < FlashEnd(l) then FlashEnd(l) else p.pos + |data| + PAGE_SIZE;
      forall i :: above <= i < |p.mem| ==> Write(l, p, data).pen.mem[i] == p.mem[i]
  {
  }

  /** The write is the one that fills the counter up to a page. */
  predicate Erases(p: Pen, n: nat) {
    p.writeBuf + n >= PAGE_SIZE
  }

  predicate InPage(i: int, page: nat) {
    page <= i < page + PAGE_SIZE
  }

  /** The write ends on the device, inside the slot or beyond it, and so does the page
      that it erases. */
  predicate Lands(p: Pen, n: nat) {
    p.pos + n <= |p.mem| && (Erases(p, n) ==> PageStart(p.pos + n) + PAGE_SIZE <= |p.mem|)
  }

  /** Every write that ends on the device, byte by byte: the data is ANDed onto what was
      there, or onto ones where the page has just been erased; the rest of that page is
      ones, and nothing else changes. The end of the slot is only looked at afterwards. */
  lemma WriteBytes(l: Layout, p: Pen, data: seq<byte>)
    requires Lands(p, |data|)
    ensures var w, end := Write(l, p, data), p.pos + |data|;
      && (w.ok <==> end < l.secondaryOffset + l.secondarySize)
      && w.pen.pos == end && |w.pen.mem| == |p.mem|
      && w.pen.writeBuf == if Erases(p, |data|) then 0 else p.writeBuf + |data|
    ensures var w, page := Write(l, p, data), PageStart(p.pos + |data|);
      forall i :: 0 <= i < |p.mem| ==>
        var was := if Erases(p, |data|) && InPage(i, page) then 0xFF else p.mem[i];
        w.pen.mem[i] == if p.pos <= i < p.pos + |data| then BitAnd(was, data[i - p.pos]) else was
  {
  }

  /** A write that does not: the cursor stays, and at most a page is erased. */
  lemma WriteMisses(l: Layout, p: Pen, data: seq<byte>)
    requires !Lands(p, |data|)
    ensures var w, page := Write(l, p, data), PageStart(p.pos + |data|);
      && !w.ok && w.pen.pos == p.pos && |w.pen.mem| == |p.mem|
      && forall i :: 0 <= i < |p.mem| ==>
           w.pen.mem[i] ==
             if Erases(p, |data|) && InPage(i, page) && page + PAGE_SIZE <= |p.mem| then 0xFF else p.mem[i]
  {
  }

  // -- the patch partition ---------------------------------------------------------

  /** The read callback gets to the end of a patch of this size: it never gets to the
      end of the partition, nor beyond the flash. */
  predicate Reachable(l: Layout, deviceSize: nat, size: nat) {
    l.storageOffset + HEADER_SIZE + size <= deviceSize && size < l.storageSize
  }

  /** How much of it can be read, in pieces. */
  function ReadableSize(l: Layout, deviceSize: nat, size: nat, piece: nat): (n: nat)
    requires piece > 0
    ensures n <= size && (Reachable(l, deviceSize, size) ==> n == size)
    ensures !Reachable(l, deviceSize, size) && size > 0 ==> n < size
    ensures l.storageOffset + HEADER_SIZE <= deviceSize ==> l.storageOffset + HEADER_SIZE + n <= deviceSize
  {
    if Reachable(l, deviceSize, size) then size
    else
      var room := deviceSize - l.storageOffset - HEADER_SIZE;
      var most := if room < l.storageSize - 1 then room else l.storageSize - 1;
      if 0 <= most < size then most - most % piece else 0
  }

  lemma NextReadable(l: Layout, deviceSize: nat, size: nat, piece: nat, at: nat, n: nat)
    requires piece > 0 && at % piece == 0 && at < size && n == (if size - at < piece then size - at else piece)
    requires at <= ReadableSize(l, deviceSize, size, piece) && Reachable(l, deviceSize, 0)
    ensures at + n == size || (at + n) % piece == 0
    ensures Reachable(l, deviceSize, at + n) <==> at + n <= ReadableSize(l, deviceSize, size, piece)
    ensures !Reachable(l, deviceSize, at + n) ==>
      !Reachable(l, deviceSize, size) && at == ReadableSize(l, deviceSize, size, piece)
  {
    ModShift(at + piece, at, piece, 1);
    if !Reachable(l, deviceSize, size) {
      var room := deviceSize - l.storageOffset - HEADER_SIZE;
      var most := if room < l.storageSize - 1 then room else l.storageSize - 1;
      NextPiece(most, piece, at);
    }
  }

  lemma NextPiece(most: nat, piece: nat, at: nat)
    requires piece > 0 && at % piece == 0 && at <= most - most % piece
    ensures at + piece <= most <==> at + piece <= most - most % piece
    ensures at + piece > most ==> at == most - most % piece
  {
    var last := most - most % piece;
    if at < last {
      ModShift(last - at, 0, piece, most / piece - at / piece);
      assert (last - at) % piece == 0;
      AtLeastOne(last - at, piece);
    }
  }

  lemma AtLeastOne(n: nat, piece: nat)
    requires n > 0 && piece > 0 && n % piece == 0
    ensures n >= piece
  {
    if n < piece {
      ModUnique(n, piece, 0, n);
    }
  }

  // -- runs of writes --------------------------------------------------------------

  function Join(ws: seq<seq<byte>>): (r: seq<byte>) {
    if ws == [] then [] else Join(ws[..|ws| - 1]) + ws[|ws| - 1]
  }

  function PenAfter(l: Layout, p: Pen, ws: seq<seq<byte>>): Pen {
    if ws == [] then p else Write(l, PenAfter(l, p, ws[..|ws| - 1]), ws[|ws| - 1]).pen
  }

  /** delta_init: the first page of the slot is erased. */
  function Begin(l: Layout, mem: seq<byte>): Pen
    requires ValidLayout(l, |mem|)
  {
    Pen(ErasePage(mem, PageStart(l.secondaryOffset)), l.secondaryOffset, 0)
  }

  /** The patcher writes slices. */
  const SLICE: nat := 128

  predicate AreSlices(ws: seq<seq<byte>>) {
    forall i :: 0 <= i < |ws| ==> 1 <= |ws[i]| <= SLICE
  }

  /** A run that fits the slot changes nothing outside it, and leaves the cursor
      behind the last byte. */
  lemma {:induction false} RunEffect(l: Layout, mem: seq<byte>, ws: seq<seq<byte>>)
    requires ValidLayout(l, |mem|) && |Join(ws)| < l.secondarySize
    ensures var p := PenAfter(l, Begin(l, mem), ws);
      && |p.mem| == |mem| && p.pos == l.secondaryOffset + |Join(ws)|
      && (forall i :: 0 <= i < |mem| && !(l.secondaryOffset <= i < FlashEnd(l)) ==> p.mem[i] == mem[i])
  {
    if ws != [] {
      RunEffect(l, mem, ws[..|ws| - 1]);
      WriteEffect(l, PenAfter(l, Begin(l, mem), ws[..|ws| - 1]), ws[|ws| - 1]);
    }
  }
}
