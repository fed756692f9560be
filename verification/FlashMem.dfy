/** struct flash_mem and the callbacks of delta.c over a flash device: three cursors
    and the counter that decides when to erase the next page. */
module FlashDevice {
  import opened Bytes
  import opened FlashSpec

  const DELTA_OK: int := 0
  const SLOT1_OUT_OF_MEMORY: int := -28
  const READING_PATCH_ERROR: int := -29
  const READING_SOURCE_ERROR: int := -30
  const WRITING_ERROR: int := -31
  const SEEKING_ERROR: int := -32
  const INVALID_BUF_SIZE: int := -34
  const CLEARING_ERROR: int := -35
  const PATCH_HEADER_ERROR: int := -37

  class FlashMem {
    const device: array<byte>
    const layout: Layout
    var patchCurrent: nat
    var patchEnd: nat
    var fromCurrent: int
    var fromEnd: int
    var toCurrent: nat
    var toEnd: nat
    var writeBuf: nat

    ghost var origin: seq<byte>         // the flash before delta_init
    ghost var writes: seq<seq<byte>>    // what has been passed to the write callback

    /** The device is what delta_init and the writes made of it, and every write but
        the last left room. */
    ghost predicate Valid()
      reads this`patchEnd, this`fromEnd, this`toEnd, this`toCurrent, this`writeBuf, this`origin, this`writes, device
    {
      && ValidLayout(layout, device.Length)
      && fromEnd == layout.primaryOffset + layout.primarySize
      && toEnd == FlashEnd(layout)
      && patchEnd == layout.storageOffset + HEADER_SIZE + layout.storageSize
      && |origin| == device.Length
      && ThePen() == PenAfter(layout, Begin(layout, origin), writes)
      && AreSlices(writes) && (writes != [] ==> |Join(writes[..|writes| - 1])| < layout.secondarySize)
    }

    ghost function ThePen(): Pen
      reads this`toCurrent, this`writeBuf, device
    {
      Pen(device[..], toCurrent, writeBuf)
    }

    /** Every byte passed to the write callback, in order. */
    ghost function Output(): seq<byte>
      reads this`writes
    {
      Join(writes)
    }

    /** No write has failed: the cursor follows the output. */
    ghost predicate Steady()
      reads this`patchEnd, this`fromEnd, this`toEnd, this`toCurrent, this`writeBuf, this`origin, this`writes, device
    {
      Valid() && toCurrent == layout.secondaryOffset + |Output()| < toEnd
    }

    /** A run leaves everything outside the slot as delta_init found it. */
    lemma OutsideKept()
      requires Steady()
      ensures device[..layout.secondaryOffset] == origin[..layout.secondaryOffset]
      ensures device[layout.storageOffset..] == origin[layout.storageOffset..]
    {
      RunEffect(layout, origin, writes);
      assert device[..layout.secondaryOffset] == device[..][..layout.secondaryOffset];
      assert device[layout.storageOffset..] == device[..][layout.storageOffset..];
    }

    constructor (device: array<byte>, layout: Layout)
      ensures this.device == device && this.layout == layout
    {
      this.device, this.layout := device, layout;
    }

    /** The callbacks again, after a restart: the target goes on where it was, the source
        is at its start. */
    constructor Resume(original: FlashMem)
      ensures device == original.device && layout == original.layout && fromCurrent == layout.primaryOffset
      ensures patchCurrent == original.patchCurrent && patchEnd == original.patchEnd && fromEnd == original.fromEnd
      ensures toCurrent == original.toCurrent && toEnd == original.toEnd && writeBuf == original.writeBuf
      ensures origin == original.origin && writes == original.writes
    {
      device, layout := original.device, original.layout;
      patchCurrent, patchEnd := original.patchCurrent, original.patchEnd;
      fromCurrent, fromEnd := original.layout.primaryOffset, original.fromEnd;
      toCurrent, toEnd, writeBuf := original.toCurrent, original.toEnd, original.writeBuf;
      origin, writes := original.origin, original.writes;
    }

    // -- the device -----------------------------------------------------------------

    method FlashRead(offset: int, size: nat) returns (ok: bool, buf: seq<byte>)
      ensures ok <==> 0 <= offset && offset + size <= device.Length
      ensures ok ==> buf == device[offset..offset + size]
    {
      ok := 0 <= offset && offset + size <= device.Length;
      buf := if ok then device[offset..offset + size] else [];
    }

    method FlashWrite(offset: nat, data: seq<byte>) returns (ok: bool)
      modifies device
      ensures ok <==> offset + |data| <= device.Length
      ensures device[..] == if ok then Program(old(device[..]), offset, data) else old(device[..])
    {
      ok := offset + |data| <= device.Length;
      if ok {
        forall i | 0 <= i < |data| { device[offset + i] := BitAnd(device[offset + i], data[i]); }
      }
    }

    method FlashErase(start: nat) returns (ok: bool)
      modifies device
      ensures ok <==> start + PAGE_SIZE <= device.Length
      ensures device[..] == if ok then ErasePage(old(device[..]), start) else old(device[..])
    {
      ok := start + PAGE_SIZE <= device.Length;
      if ok {
        forall i | start <= i < start + PAGE_SIZE { device[i] := ERASED; }
      }
    }

    // -- the callbacks ----------------------------------------------------------------

    method ErasePageAt(offset: nat) returns (res: int)
      modifies device
      ensures res == if PageStart(offset) + PAGE_SIZE <= device.Length then DELTA_OK else CLEARING_ERROR
      ensures device[..] == if res == DELTA_OK then ErasePage(old(device[..]), PageStart(offset)) else old(device[..])
    {
      var ok := FlashErase(offset - offset % PAGE_SIZE);
      res := if ok then DELTA_OK else CLEARING_ERROR;
    }

    method Write(data: seq<byte>) returns (res: int)
      requires ValidLayout(layout, device.Length) && toEnd == FlashEnd(layout)
      modifies this`toCurrent, this`writeBuf, this`writes, device
      ensures ThePen() == FlashSpec.Write(layout, old(ThePen()), data).pen
      ensures res == DELTA_OK <==> FlashSpec.Write(layout, old(ThePen()), data).ok
      ensures writes == old(writes) + [data]
      ensures var p := old(ThePen());
        var end := p.pos + |data|;
        res == if Erases(p, |data|) && PageStart(end) + PAGE_SIZE > |p.mem| then -35
               else if end > |p.mem| then -31 else if end >= toEnd then -28 else 0
    {
      writes := writes + [data];
      writeBuf := writeBuf + |data|;
      if writeBuf >= PAGE_SIZE {
        var erased := ErasePageAt(toCurrent + |data|);
        if erased != DELTA_OK {
          return CLEARING_ERROR;
        }
        writeBuf := 0;
      }
      res := Put(data);
    }

    /** Program the bytes and move the cursor. */
    method Put(data: seq<byte>) returns (res: int)
      requires toEnd == FlashEnd(layout)
      modifies this`toCurrent, device
      ensures var p := old(ThePen());
        var end := p.pos + |data|;
        if end > |p.mem| then ThePen() == p && res == -31
        else ThePen() == Pen(Program(p.mem, p.pos, data), end, p.writeBuf) && res == if end >= toEnd then -28 else 0
    {
      var ok := FlashWrite(toCurrent, data);
      if !ok {
        return WRITING_ERROR;
      }
      toCurrent := toCurrent + |data|;
      if toCurrent >= toEnd {
        return SLOT1_OUT_OF_MEMORY;
      }
      return DELTA_OK;
    }

    /** Write during a run: the callback in the terms of the run so far. */
    method WriteSteady(data: seq<byte>) returns (res: int)
      requires Steady() && 1 <= |data| <= SLICE
      modifies this`toCurrent, this`writeBuf, this`writes, device
      ensures Valid() && writes == old(writes) + [data] && Output() == old(Output()) + data
      ensures res == DELTA_OK <==> |old(Output())| + |data| < layout.secondarySize
      ensures res <= 0 && (res == DELTA_OK ==> Steady())
      ensures device[..layout.secondaryOffset] == old(device[..layout.secondaryOffset])
    {
      ghost var before := ThePen();
      WriteEffect(layout, before, data);
      res := Write(data);
      assert writes[..|writes| - 1] == old(writes);
      assert device[..layout.secondaryOffset] == old(device[..])[..layout.secondaryOffset];
    }

    method FromRead(size: nat) returns (res: int, buf: seq<byte>)
      requires Valid()
      modifies this`fromCurrent
      ensures res == DELTA_OK <==> size > 0 && 0 <= old(fromCurrent) && old(fromCurrent) + size < fromEnd
      ensures res == DELTA_OK ==> fromCurrent == old(fromCurrent) + size && buf == device[old(fromCurrent)..fromCurrent]
      ensures res == DELTA_OK || res == if size == 0 then -34 else -30
    {
      buf := [];
      if size <= 0 {
        return INVALID_BUF_SIZE, buf;
      }
      var ok;
      ok, buf := FlashRead(fromCurrent, size);
      if !ok {
        return READING_SOURCE_ERROR, buf;
      }
      fromCurrent := fromCurrent + size;
      if fromCurrent >= fromEnd {
        return READING_SOURCE_ERROR, buf;
      }
      return DELTA_OK, buf;
    }

    method PatchRead(size: nat) returns (res: int, buf: seq<byte>)
      requires Valid()
      modifies this`patchCurrent
      ensures res == DELTA_OK <==>
                size > 0 && old(patchCurrent) + size <= device.Length && old(patchCurrent) + size < patchEnd
      ensures res == DELTA_OK ==>
        patchCurrent == old(patchCurrent) + size && buf == device[old(patchCurrent)..patchCurrent]
      ensures res == DELTA_OK || res == if size == 0 then -34 else -29
    {
      buf := [];
      if size <= 0 {
        return INVALID_BUF_SIZE, buf;
      }
      var ok;
      ok, buf := FlashRead(patchCurrent, size);
      if !ok {
        return READING_PATCH_ERROR, buf;
      }
      patchCurrent := patchCurrent + size;
      if patchCurrent >= patchEnd {
        return READING_PATCH_ERROR, buf;
      }
      return DELTA_OK, buf;
    }

    method Seek(offset: int) returns (res: int)
      requires Valid()
      modifies this`fromCurrent
      ensures fromCurrent == old(fromCurrent) + offset
      ensures res == if fromCurrent < fromEnd then 0 else -32
    {
      fromCurrent := fromCurrent + offset;
      if fromCurrent >= fromEnd {
        return SEEKING_ERROR;
      }
      return DELTA_OK;
    }

    // -- initialisation -----------------------------------------------------------------

    method InitFlashMem()
      modifies this`fromCurrent, this`fromEnd, this`toCurrent, this`toEnd, this`patchCurrent, this`patchEnd
      modifies this`writeBuf
      ensures fromCurrent == layout.primaryOffset && fromEnd == fromCurrent + layout.primarySize
      ensures toCurrent == layout.secondaryOffset && toEnd == FlashEnd(layout)
      ensures patchCurrent == layout.storageOffset + HEADER_SIZE && patchEnd == patchCurrent + layout.storageSize
      ensures writeBuf == 0
    {
      fromCurrent := layout.primaryOffset;
      fromEnd := fromCurrent + layout.primarySize;
      toCurrent := layout.secondaryOffset;
      toEnd := toCurrent + layout.secondarySize;
      patchCurrent := layout.storageOffset + HEADER_SIZE;
      patchEnd := patchCurrent + layout.storageSize;
      writeBuf := 0;
    }

    /** delta_init: cursors at the start, the first page of the slot erased. */
    method Init() returns (res: int)
      requires ValidLayout(layout, device.Length)
      modifies this, device
      ensures res == DELTA_OK && Steady() && Output() == [] && origin == old(device[..])
      ensures fromCurrent == layout.primaryOffset && patchCurrent == layout.storageOffset + 8
      ensures fromEnd == layout.primaryOffset + layout.primarySize && toCurrent == layout.secondaryOffset
      ensures toEnd == layout.secondaryOffset + layout.secondarySize && writeBuf == 0
      ensures patchEnd == layout.storageOffset + 8 + layout.storageSize
      ensures device[..layout.secondaryOffset] == old(device[..layout.secondaryOffset])
      ensures device[layout.storageOffset..] == old(device[layout.storageOffset..])
    {
      origin, writes := device[..], [];
      InitFlashMem();
      res := ErasePageAt(toCurrent);
      assert device[..layout.secondaryOffset] == device[..][..layout.secondaryOffset];
      assert device[layout.storageOffset..] == device[..][layout.storageOffset..];
    }
  }
}
