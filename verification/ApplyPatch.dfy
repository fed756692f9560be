/** The resumable patch applier of detools.c over the flash callbacks: every way of
    cutting a patch into chunks has the one-pass meaning of the whole patch. */
module Applying {
  import opened Bytes
  import opened HeatshrinkSpec
  import opened HeatshrinkDecoding
  import opened Varint
  import opened PatchSpec
  import opened PatchFacts
  import opened PatchSlices
  import opened PatchRuns
  import opened PatchHalts
  import opened PatchTrack
  import opened PatchReading
  import opened FlashDevice
  import FlashSpec

  predicate OpenCursor(u: bool) {
    true
  }

  predicate OpenFlash(u: bool) {
    true
  }

  predicate OpenStep(u: bool) {
    true
  }

  predicate OpenTurn(u: bool) {
    true
  }

  predicate OpenTracks(u: bool) {
    true
  }

  predicate OpenEnd(u: bool) {
    true
  }

  predicate OpenReading(u: bool) {
    true
  }

  /** What a step over the stream can return: HEATSHRINK_SINK, HEATSHRINK_POLL and
      INTERNAL_ERROR are not among them. */
  predicate IsStatus(res: int) {
    res in {OK, NO_DATA, NOT_IMPLEMENTED, CORRUPT_PATCH, IO_FAILED, CORRUPT_PATCH_OVERFLOW, HEATSHRINK_HEADER}
  }

  /** The bytes of the struct, as a dump stores them. */
  datatype Image = Image(state: PatchState, compression: int, patchSize: nat, patchOffset: nat, toOffset: nat,
                         toSize: nat, fromOffset: int, chunkSize: nat, reader: ReaderImage)

  /** An empty data block is left without taking a byte. */
  function MachineOf(state: PatchState, size: SizeState, toSize: nat, toOffset: nat, chunkSize: nat, fromOffset: int,
                     used: nat, out: seq<byte>): Machine
  {
    var m := Running(state, size, toSize, toOffset, if IsData(state) then chunkSize else 0, fromOffset, used, out);
    if IsData(state) && WfSize(size) then Normal(m) else m
  }

  class ApplyPatch {
    const flash: FlashMem
    const chunk: PatchChunk
    const reader: PatchReader
    var patchSize: nat
    var state: PatchState
    var compression: int
    var patchOffset: nat
    var toOffset: nat
    var toSize: nat
    var fromOffset: int
    var chunkSize: nat
    var destroySet: bool          // patch_reader.destroy != NULL

    ghost var host: Host
    ghost var header: seq<byte>   // the outer header
    ghost var feed: Feed          // the patch as it is offered

    ghost predicate Wired()
      reads chunk
    {
      && reader.chunk == chunk && chunk.Valid()
      && reader.decoder.buffers != flash.device
    }

    /** The flash and its cursors agree with the offsets kept here. Sealed: only a
        proof that mentions OpenCursor looks inside. */
    ghost predicate InStep()
      reads this`host, this`fromOffset
      reads flash`patchEnd, flash`fromCurrent, flash`fromEnd, flash`toCurrent, flash`toEnd, flash`writeBuf
      reads flash`origin, flash`writes, flash.device
    {
      forall u {:trigger OpenCursor(u)} :: OpenCursor(u) ==> CursorsAgree()
    }

    /** What stays true of the flash after a failure, too. Sealed alike. */
    ghost predicate Kept()
      reads flash`patchEnd, flash`fromEnd, flash`toEnd, flash`toCurrent, flash`writeBuf
      reads flash`origin, flash`writes, flash.device
    {
      forall u {:trigger OpenFlash(u)} :: OpenFlash(u) ==> flash.Valid()
    }

    lemma InStepKept()
      requires InStep()
      ensures Kept()
    {
      assert OpenCursor(true);
    }

    lemma KeptValid()
      requires Kept()
      ensures flash.Valid()
    {
      assert OpenFlash(true);
    }

    ghost predicate CursorsAgree()
      reads this`host, this`fromOffset
      reads flash`patchEnd, flash`fromCurrent, flash`fromEnd, flash`toCurrent, flash`toEnd, flash`writeBuf
      reads flash`origin, flash`writes, flash.device
    {
      && flash.Steady()
      && host == Host(flash.device[..flash.fromEnd], flash.layout.primaryOffset, flash.layout.secondarySize)
      && flash.fromCurrent == flash.layout.primaryOffset + fromOffset < flash.fromEnd
    }

    /** The machine of the specification. */
    ghost function Abs(): Machine
      requires reader.Linked()
      reads this, reader.chunk, reader, reader.decoder, flash`writes
    {
      MachineOf(state, reader.SizeAbs(), toSize, toOffset, chunkSize, fromOffset, |reader.decoder.hist|, flash.Output())
    }

    /** The machine after a step with this status. After a failed callback the bytes
        written are not the machine's. */
    ghost function Now(res: int): Machine
      requires reader.Linked()
      reads this, reader.chunk, reader, reader.decoder, flash`writes
    {
      if res >= 0 then Abs() else Broken(res, if res == IO_FAILED then [] else flash.Output())
    }

    /** The last request was answered in full, or with all there is. */
    ghost predicate Lean()
      reads reader.decoder
    {
      reader.Lazy(|reader.decoder.hist|) || reader.decoder.hist == reader.decoder.decoded
    }

    ghost predicate Drained()
      reads chunk, reader.decoder
    {
      chunk.rest == [] && reader.decoder.hist == reader.decoder.decoded
    }

    /** After a step that took these bytes and did not fail. Sealed alike. */
    ghost predicate Ready(got: seq<byte>, taken: seq<byte>)
      reads this, chunk, reader.chunk, reader, reader.decoder, reader.decoder.buffers
      reads flash`patchEnd, flash`fromCurrent, flash`fromEnd, flash`toCurrent, flash`toEnd, flash`writeBuf
      reads flash`origin, flash`writes, flash.device
    {
      forall u {:trigger OpenStep(u)} :: OpenStep(u) ==> Active() && (Lean() || (got == [] && taken == []))
    }

    ghost predicate Active()
      reads this, chunk, reader.chunk, reader, reader.decoder, reader.decoder.buffers
      reads flash`patchEnd, flash`fromCurrent, flash`fromEnd, flash`toCurrent, flash`toEnd, flash`writeBuf
      reads flash`origin, flash`writes, flash.device
    {
      Wired() && reader.Valid() && InStep() && state != Init && state != Failed && Wf(Abs())
    }

    /** detools_apply_patch_init has been called and no byte of the patch was seen. */
    ghost predicate Fresh()
      reads this, chunk, reader.chunk, reader, reader.decoder
      reads flash`patchEnd, flash`fromCurrent, flash`fromEnd, flash`toCurrent, flash`toEnd, flash`writeBuf
      reads flash`origin, flash`writes, flash.device
    {
      && state == Init && Wired() && reader.Linked() && reader.decoder.buffers.Length == 256 + Pow2(STATIC_CONFIG.w)
      && InStep() && flash.Output() == [] && flash.writes == [] && fromOffset == 0 && !destroySet
    }

    /** The outer header has been read, and nothing has failed. */
    ghost predicate Begun()
      reads this, chunk, reader.chunk, reader, reader.decoder, reader.decoder.buffers
      reads flash`patchEnd, flash`fromCurrent, flash`fromEnd, flash`toCurrent, flash`toEnd, flash`writeBuf
      reads flash`origin, flash`writes, flash.device
    {
      Active() && destroySet
    }

    /** Where the run stands. */
    ghost function Here(): Standing
      requires reader.Linked()
      reads this, reader.chunk, reader, reader.decoder, flash`writes
    {
      Standing(host, feed, header, Abs(), reader.Stream(), reader.decoder.decoded, reader.decoder.hist, flash.writes)
    }

    /** p is what has been taken of the patch so far. Sealed alike. */
    ghost predicate Tracks(p: seq<byte>)
      reads this, chunk, reader.chunk, reader, reader.decoder, reader.decoder.buffers
      reads flash`patchEnd, flash`fromCurrent, flash`fromEnd, flash`toCurrent, flash`toEnd, flash`writeBuf
      reads flash`origin, flash`writes, flash.device
    {
      forall u {:trigger OpenTracks(u)} :: OpenTracks(u) ==>
        if state == Init then Fresh() && p == [] else Begun() && OnTrack(Here(), p)
    }

    /** The outer header has been read. */
    ghost predicate Underway()
      reads this`state
    {
      state != Init && state != Failed
    }

    constructor (flash: FlashMem)
      ensures this.flash == flash && fresh(chunk) && fresh(reader) && fresh(reader.decoder)
      ensures fresh(reader.decoder.buffers)
      ensures reader.chunk == chunk && chunk.Valid() && reader.Linked()
      ensures reader.decoder.buffers.Length == 256 + Pow2(STATIC_CONFIG.w)
    {
      this.flash := flash;
      var c := new PatchChunk();
      chunk := c;
      reader := new PatchReader(c);
      state, patchSize, compression, patchOffset := Init, 0, 0, 0;
      toOffset, toSize, fromOffset, chunkSize, destroySet := 0, 0, 0, 0, false;
    }

    lemma IsReady(got: seq<byte>, taken: seq<byte>)
      requires Active() && (Lean() || (got == [] && taken == []))
      ensures Ready(got, taken)
    {
    }

    // -- size fields -----------------------------------------------------------------

    lemma AbsInField()
      requires reader.Linked() && IsSize(state)
      ensures Abs() == Running(state, reader.SizeAbs(), toSize, toOffset, 0, fromOffset, |reader.decoder.hist|,
                               flash.Output())
    {
    }

    /** patch_reader_unpack_size in the terms of the machine. */
    method UnpackField() returns (res: int, size: int, ghost got: seq<byte>, ghost taken: seq<byte>,
                       ghost sized: Machine)
      requires Active() && IsSize(state)
      modifies chunk`offset, chunk`rest, reader, reader.decoder, reader.decoder.buffers
      ensures reader.Pulled(res, got, taken)
      ensures res in {OK, NO_DATA, HEATSHRINK_HEADER, CORRUPT_PATCH_OVERFLOW}
      ensures res == OK ==>
        && Active() && got != [] && reader.Lazy(|reader.decoder.hist|) && reader.SizeAbs() == First
        && -0x800_0000 < size < 0x800_0000
        && SizedTo(host, Abs(), size, sized)
      ensures res == NO_DATA ==> Ready(got, taken) && sized == Abs()
      ensures res == CORRUPT_PATCH_OVERFLOW ==> sized == Broken(CORRUPT_PATCH_OVERFLOW, flash.Output())
      ensures res != HEATSHRINK_HEADER ==> Reaches(host, old(Abs()), got, sized) && SizeBytes(old(Abs()), got)
    {
      AbsInField();
      ghost var before := Abs();
      sized := before;
      res, size, got, taken := reader.UnpackSize();
      if res != HEATSHRINK_HEADER {
        AbsInField();
        ghost var after := Abs();
        sized := FieldRead(host, before, got, after, ReadSize(before.size, got));
        if res == NO_DATA {
          IsReady(got, taken);
        }
      }
    }

    method ProcessDfpatchSize() returns (res: int, ghost got: seq<byte>, ghost taken: seq<byte>)
      requires Active() && state == DfpatchSize
      modifies this`state, chunk`offset, chunk`rest, reader, reader.decoder, reader.decoder.buffers
      ensures reader.Pulled(res, got, taken)
      ensures IsStatus(res) && (res >= 0 ==> Ready(got, taken))
      ensures res != HEATSHRINK_HEADER ==> Reaches(host, old(Abs()), got, Now(res)) && SizeBytes(old(Abs()), got)
      ensures res == NO_DATA ==> state == old(state)
      ensures res == OK ==> got != [] && state == DiffSize && reader.SizeAbs() == First
    {
      var size;
      ghost var sized;
      res, size, got, taken, sized := UnpackField();
      if res != OK {
        return;
      }
      ghost var m := Abs();
      SizedDfpatch(host, m, size, sized);
      if size > 0 {
        return NOT_IMPLEMENTED, got, taken;
      }
      LeaveField();
      IsReady(got, taken);
    }

    method LeaveField()
      requires Active() && state == DfpatchSize
      modifies this`state
      ensures Active() && state == DiffSize && Abs() == old(Abs()).(state := DiffSize)
    {
      state := DiffSize;
    }

    /** common_process_size: the check, made in 32-bit arithmetic. */
    method CheckSize(size: int, ghost m: Machine, ghost sized: Machine) returns (fits: bool, n: nat)
      requires m.Running? && (m.state == DiffSize || m.state == ExtraSize) && m.chunkSize == 0 && WfSize(m.size)
      requires SizedTo(host, m, size, sized) && m.toOffset == toOffset && m.toSize == toSize
      ensures sized == if fits then Block(m, n) else Broken(CORRUPT_PATCH, m.out)
    {
      n := size % SIZE_MOD;
      fits := (toOffset + n) % SIZE_MOD <= toSize;
      SizedBlock(host, m, size, sized, n, fits);
    }

    /** process_size: a block's size; the sum with the bytes written may wrap. */
    method ProcessSize(next: PatchState) returns (res: int, ghost got: seq<byte>, ghost taken: seq<byte>)
      requires Active() && (state == DiffSize || state == ExtraSize)
      requires next == if state == DiffSize then DiffData else ExtraData
      modifies this`state, this`chunkSize, chunk`offset, chunk`rest, reader, reader.decoder, reader.decoder.buffers
      ensures reader.Pulled(res, got, taken)
      ensures IsStatus(res) && (res >= 0 ==> Ready(got, taken))
      ensures res != HEATSHRINK_HEADER ==> Reaches(host, old(Abs()), got, Now(res)) && SizeBytes(old(Abs()), got)
      ensures res == NO_DATA ==> state == old(state)
      ensures res == OK ==> got != [] && state == next && reader.SizeAbs() == First
    {
      var size;
      ghost var sized;
      res, size, got, taken, sized := UnpackField();
      if res != OK {
        return;
      }
      var fits := TakeSize(next, size, sized);
      if !fits {
        return CORRUPT_PATCH, got, taken;
      }
      IsReady(got, taken);
    }

    method TakeSize(next: PatchState, size: int, ghost sized: Machine) returns (fits: bool)
      requires Active() && (state == DiffSize || state == ExtraSize) && SizedTo(host, Abs(), size, sized)
      requires next == if state == DiffSize then DiffData else ExtraData
      modifies this`state, this`chunkSize
      ensures fits ==> Active() && state == next && Abs() == sized
      ensures !fits ==> sized == Broken(CORRUPT_PATCH, flash.Output())
    {
      ghost var before := Abs();
      var n;
      fits, n := CheckSize(size, before, sized);
      if fits {
        StartBlock(next, n);
      }
    }

    method StartBlock(next: PatchState, n: nat)
      requires Active() && (state == DiffSize || state == ExtraSize)
      requires next == if state == DiffSize then DiffData else ExtraData
      modifies this`state, this`chunkSize
      ensures Active() && state == next && Abs() == Block(old(Abs()), n)
    {
      state, chunkSize := next, n;
    }

    /** The seek callback and the offset it is mirrored in. */
    method SeekSource(offset: int) returns (ok: bool)
      requires InStep()
      modifies this`fromOffset, flash`fromCurrent
      ensures ok <==> SeekOk(host, old(fromOffset) + offset)
      ensures ok ==> InStep() && fromOffset == old(fromOffset) + offset
    {
      assert OpenCursor(true);
      var seeked := flash.Seek(offset);
      ok := seeked == DELTA_OK;
      if ok {
        fromOffset := fromOffset + offset;
      }
    }

    method ProcessAdjustment() returns (res: int, ghost got: seq<byte>, ghost taken: seq<byte>)
      requires Active() && (state == Adjustment)
      modifies this`state, this`fromOffset, chunk`offset, chunk`rest
      modifies reader, reader.decoder, reader.decoder.buffers, flash`fromCurrent
      ensures reader.Pulled(res, got, taken)
      ensures IsStatus(res) && (res >= 0 ==> Ready(got, taken))
      ensures res != HEATSHRINK_HEADER ==> Reaches(host, old(Abs()), got, Now(res)) && SizeBytes(old(Abs()), got)
      ensures res == NO_DATA ==> state == old(state)
      ensures res == OK ==> got != [] && state in {Done, DiffSize} && reader.Lazy(|reader.decoder.hist|)
      ensures res == OK ==> reader.SizeAbs() == First
    {
      var offset;
      ghost var sized;
      res, offset, got, taken, sized := UnpackField();
      if res != OK {
        return;
      }
      var ok := EndBlock(offset, sized);
      if !ok {
        return IO_FAILED, got, taken;
      }
    }

    method EndBlock(offset: int, ghost sized: Machine) returns (ok: bool)
      requires Active() && state == Adjustment && SizedTo(host, Abs(), offset, sized)
      modifies this`state, this`fromOffset, flash`fromCurrent
      ensures ok ==> Active() && Abs() == sized && state in {Done, DiffSize}
      ensures !ok ==> sized == BrokenIo()
    {
      SizedSeek(host, Abs(), offset, sized);
      ok := SeekSource(offset);
      if ok {
        LeaveAdjustment();
      }
    }

    method LeaveAdjustment()
      requires state == Adjustment && reader.Linked()
      modifies this`state
      ensures state == if toOffset == toSize then Done else DiffSize
      ensures Abs() == MachineOf(state, reader.SizeAbs(), toSize, toOffset, 0, fromOffset, |reader.decoder.hist|,
                                 flash.Output())
    {
      state := if toOffset == toSize then Done else DiffSize;
    }

    // -- data blocks -----------------------------------------------------------------

    /** The read callback and the offset it is mirrored in. */
    method ReadSource(n: nat) returns (ok: bool, from: seq<byte>)
      requires InStep() && n > 0
      modifies this`fromOffset, flash`fromCurrent
      ensures ok <==> ReadOk(host, old(fromOffset), n)
      ensures ok ==> InStep() && fromOffset == old(fromOffset) + n && |from| == n
      ensures ok ==> forall i :: 0 <= i < n ==> from[i] == host.mem[host.base + old(fromOffset) + i]
    {
      assert OpenCursor(true);
      var res;
      res, from := flash.FromRead(n);
      ok := res == DELTA_OK;
      if ok {
        fromOffset := fromOffset + n;
      }
    }

    /** The write callback. */
    method WriteTarget(data: seq<byte>) returns (ok: bool)
      requires InStep() && 1 <= |data| <= FlashSpec.SLICE
      modifies flash`toCurrent, flash`writeBuf, flash`writes, flash.device
      ensures ok <==> WriteOk(host, |old(flash.Output())|, |data|)
      ensures ok ==> InStep() && flash.Output() == old(flash.Output()) + data
      ensures Kept() && flash.writes == old(flash.writes) + [data]
    {
      assert OpenCursor(true);
      var res := flash.WriteSteady(data);
      ok := res == DELTA_OK;
      assert flash.device[..flash.fromEnd] == flash.device[..flash.layout.secondaryOffset][..flash.fromEnd];
    }

    /** `to[i] + from[i]` in eight bits. */
    static method AddSource(to: seq<byte>, from: seq<byte>) returns (sum: seq<byte>)
      requires |from| == |to|
      ensures |sum| == |to| && forall i :: 0 <= i < |to| ==> sum[i] == Plus(to[i], from[i])
    {
      sum := to;
      for i := 0 to |to|
        invariant |sum| == |to|
        invariant forall j :: 0 <= j < i ==> sum[j] == Plus(to[j], from[j])
        invariant forall j :: i <= j < |to| ==> sum[j] == to[j]
      {
        sum := sum[i := Plus(to[i], from[i])];
      }
    }

    /** The target bytes for a slice of decompressed bytes: patched, or as they are. */
    method TargetBytes(to: seq<byte>, next: PatchState, ghost before: Machine) returns (ok: bool, data: seq<byte>)
      requires InStep() && to != [] && IsData(state) && next == if state == DiffData then ExtraSize else Adjustment
      requires before.Running? && before.state == state && before.fromOffset == fromOffset
      modifies this`fromOffset, flash`fromCurrent
      ensures ok <==> before.state == ExtraData || ReadOk(host, before.fromOffset, |to|)
      ensures ok ==> InStep() && data == Slice(host, before, to)
      ensures ok ==> fromOffset == if before.state == DiffData then before.fromOffset + |to| else before.fromOffset
    {
      data, ok := to, true;
      if next == ExtraSize {
        var from;
        ok, from := ReadSource(|to|);
        if ok {
          data := AddSource(to, from);
          assert data == Slice(host, before, to);
        }
      }
    }

    /** The part of process_data after decompression. */
    method WriteSlice(to: seq<byte>, next: PatchState, ghost before: Machine) returns (ok: bool)
      requires Wired() && reader.Valid() && InStep() && IsData(state) && next == After(state)
      requires Wf(before) && before.Running? && 1 <= |to| <= chunkSize == before.chunkSize && |to| <= FlashSpec.SLICE
      requires Abs() == before.(used := before.used + |to|)
      modifies this`fromOffset, this`toOffset, this`chunkSize, flash`fromCurrent
      modifies flash`toCurrent, flash`writeBuf, flash`writes, flash.device
      ensures ok ==> Active()
      ensures Reaches(host, before, to, if ok then Abs() else BrokenIo())
      ensures SliceDone(host, before, old(flash.writes), to, if ok then Abs() else BrokenIo(), flash.writes)
      ensures Kept()
    {
      InStepKept();
      var data;
      ok, data := TargetBytes(to, next, before);
      ghost var readOk, after := ok, Advanced(before, |to|, data);
      if ok {
        ok := CommitSlice(data, before, after);
      }
      SliceStep(host, before, to, data, readOk, WriteOk(host, |before.out|, |to|), after);
      SliceIsDone(host, before, to, data, readOk, WriteOk(host, |before.out|, |to|), after, old(flash.writes),
                  flash.writes);
    }

    /** The offsets move on, and the bytes are written. */
    method CommitSlice(data: seq<byte>, ghost before: Machine, ghost after: Machine) returns (ok: bool)
      requires Wired() && reader.Valid() && InStep() && IsData(state)
      requires Wf(before) && before.Running? && 1 <= |data| <= chunkSize == before.chunkSize
      requires |data| <= FlashSpec.SLICE
      requires before.state == state && before.size == reader.SizeAbs()
      requires before.toSize == toSize && before.toOffset == toOffset
      requires before.used + |data| == |reader.decoder.hist| && before.out == flash.Output()
      requires fromOffset == if state == DiffData then before.fromOffset + |data| else before.fromOffset
      requires after == Advanced(before, |data|, data)
      modifies this`toOffset, this`chunkSize
      modifies flash`toCurrent, flash`writeBuf, flash`writes, flash.device
      ensures ok <==> WriteOk(host, |before.out|, |data|)
      ensures ok ==> Active() && Abs() == after
      ensures Kept() && flash.writes == old(flash.writes) + [data]
    {
      ghost var size, used := before.size, before.used + |data|;
      toOffset, chunkSize := (toOffset + |data|) % SIZE_MOD, chunkSize - |data|;
      AdvancedFields(before, |data|, data, toOffset, chunkSize, fromOffset, before.out + data);
      ok := WriteTarget(data);
    }

    function After(s: PatchState): PatchState {
      if s == DiffData then ExtraSize else Adjustment
    }

    /** patch_reader_decompress in the terms of the machine. */
    method Fetch(size: nat) returns (res: int, to: seq<byte>, ghost taken: seq<byte>)
      requires Active() && IsData(state) && 1 <= size <= chunkSize
      modifies chunk`offset, chunk`rest, reader, reader.decoder, reader.decoder.buffers
      ensures reader.Pulled(res, to, taken)
      ensures res in {OK, NO_DATA, HEATSHRINK_HEADER} && |to| <= size && (to == [] <==> res != OK)
      ensures res != HEATSHRINK_HEADER ==>
        Wired() && reader.Valid() && InStep() && Abs() == old(Abs()).(used := old(Abs()).used + |to|)
      ensures res == NO_DATA ==> Active() && Abs() == old(Abs())
      ensures res == OK ==> Lean() && (|to| == size || Drained())
    {
      res, to, taken := reader.Decompress(size);
    }

    /** The machine has left an empty block already. */
    method LeaveBlock(next: PatchState)
      requires Active() && IsData(state) && chunkSize == 0 && next == After(state)
      modifies this`state
      ensures Active() && state == next && Abs() == old(Abs())
    {
      state := next;
    }

    /** process_data: at most one slice of a block. */
    method ProcessData(next: PatchState) returns (res: int, ghost got: seq<byte>, ghost taken: seq<byte>)
      requires Active() && IsData(state) && next == After(state)
      modifies this`state, this`fromOffset, this`toOffset, this`chunkSize, chunk`offset, chunk`rest
      modifies reader, reader.decoder, reader.decoder.buffers
      modifies flash`fromCurrent, flash`toCurrent, flash`writeBuf, flash`writes, flash.device
      ensures reader.Pulled(res, got, taken)
      ensures IsStatus(res) && (res >= 0 ==> Ready(got, taken))
      ensures res != HEATSHRINK_HEADER ==>
        && Reaches(host, old(Abs()), got, Now(res)) && Answered(old(Abs()), got, Drained())
        && Wrote(host, old(Abs()), old(flash.writes), got, Now(res), flash.writes)
      ensures res == NO_DATA ==> state == old(state)
      ensures res == OK ==> got != [] || (old(chunkSize) == 0 && state == next && taken == [])
      ensures old(chunkSize) == 0 ==> got == [] && taken == []
      ensures res == OK && got != [] ==> state == old(state)
      ensures Kept() && (res == HEATSHRINK_HEADER ==> flash.writes == old(flash.writes))
    {
      var size := if chunkSize < FlashSpec.SLICE then chunkSize else FlashSpec.SLICE;
      if size == 0 {
        InStepKept();
        ReachesNone(host, Abs());
        LeaveBlock(next);
        IsReady([], []);
        return OK, [], [];
      }
      res, got, taken := ProcessSlice(size, next);
    }

    method ProcessSlice(size: nat, next: PatchState) returns (res: int, got: seq<byte>, ghost taken: seq<byte>)
      requires Active() && IsData(state) && next == After(state)
      requires 1 <= size == (if chunkSize < FlashSpec.SLICE then chunkSize else FlashSpec.SLICE)
      modifies this`state, this`fromOffset, this`toOffset, this`chunkSize, chunk`offset, chunk`rest
      modifies reader, reader.decoder, reader.decoder.buffers
      modifies flash`fromCurrent, flash`toCurrent, flash`writeBuf, flash`writes, flash.device
      ensures reader.Pulled(res, got, taken)
      ensures IsStatus(res) && (res >= 0 ==> Ready(got, taken))
      ensures res != HEATSHRINK_HEADER ==>
        && Reaches(host, old(Abs()), got, Now(res)) && Answered(old(Abs()), got, Drained())
        && Wrote(host, old(Abs()), old(flash.writes), got, Now(res), flash.writes)
      ensures res == NO_DATA ==> state == old(state)
      ensures res == OK ==> got != [] && state == old(state)
      ensures Kept() && (res == HEATSHRINK_HEADER ==> flash.writes == old(flash.writes))
    {
      InStepKept();
      ghost var before := Abs();
      res, got, taken := Fetch(size);
      if res == OK {
        var ok := WriteSlice(got, next, before);
        res := if ok then OK else IO_FAILED;
      } else {
        ReachesNone(host, before);
      }
      if res >= 0 {
        IsReady(got, taken);
      }
    }

    // -- the outer header ------------------------------------------------------------

    /** process_init: all of the header must be in the chunk at hand. */
    method ProcessInit() returns (res: int, ghost taken: seq<byte>)
      requires Fresh()
      modifies this`compression, this`header, this`toOffset, this`toSize, this`state, this`destroySet
      modifies chunk`offset, chunk`rest, reader, reader.decoder, reader.decoder.buffers
      ensures Wired()
      ensures res in {OK, SHORT_HEADER, BAD_PATCH_TYPE, CORRUPT_PATCH_OVERFLOW}
      ensures Header(old(chunk.rest)) == if res == OK then HeaderOk(toSize, |taken|) else HeaderError(res)
      ensures res == OK ==>
        && old(chunk.rest) == taken + chunk.rest && taken != []
        && state != Init && Begun() && OnTrack(Here(), taken) && compression == taken[0] % 16
    {
      var size;
      res, size, taken := ReadHeader();
      if res != OK {
        return;
      }
      reader.Init();
      Begin(taken, size);
    }

    /** The outer header in the chunk. */
    method ReadHeader() returns (res: int, size: int, ghost taken: seq<byte>)
      requires chunk.Valid()
      modifies this`compression, chunk`offset, chunk`rest
      ensures chunk.Valid() && size >= 0
      ensures res in {OK, SHORT_HEADER, BAD_PATCH_TYPE, CORRUPT_PATCH_OVERFLOW}
      ensures Header(old(chunk.rest)) == if res == OK then HeaderOk(size, |taken|) else HeaderError(res)
      ensures res == OK ==> old(chunk.rest) == taken + chunk.rest && taken != [] && IsHeader(taken, size)
      ensures res == OK ==> compression == taken[0] % 16
    {
      taken, size := [], 0;
      var got, b := chunk.Get();
      if got != OK {
        return SHORT_HEADER, size, taken;
      }
      compression := b % 16;
      if b / 16 % 8 != 0 {
        return BAD_PATCH_TYPE, size, taken;
      }
      ghost var more;
      res, size, more := chunk.UnpackHeaderSize(b, Header([b] + chunk.rest));
      taken := [b] + more;
      if res != OK {
        return;
      }
      Assoc([b], more, chunk.rest);
      HeaderCut(taken, chunk.rest, size);
    }

    /** The end of process_init. A negative size cannot be. */
    method Begin(ghost taken: seq<byte>, size: int)
      requires Wired() && reader.Valid() && InStep() && flash.Output() == [] && flash.writes == [] && fromOffset == 0
      requires reader.Stream() == [] && reader.decoder.hist == [] && reader.SizeAbs() == First
      requires size >= 0 && IsHeader(taken, size)
      modifies this`header, this`toOffset, this`toSize, this`state, this`destroySet
      ensures Begun() && OnTrack(Here(), taken) && toSize == size
      ensures state == if size > 0 then DfpatchSize else Done
    {
      if size < 0 {
        assert false;
      }
      StoreHeader(taken, size);
      reader.StreamGives();
      assert Abs() == Started(size);
      BeginsTrack(Here(), size);
    }

    method StoreHeader(ghost taken: seq<byte>, size: nat)
      modifies this`header, this`toOffset, this`toSize, this`state, this`destroySet
      ensures destroySet && header == taken && toOffset == 0 && toSize == size
      ensures state == if size > 0 then DfpatchSize else Done
    {
      header, destroySet := taken, true;
      toOffset, toSize, state := 0, size, if size > 0 then DfpatchSize else Done;
    }

    // -- one step --------------------------------------------------------------------

    /** An empty data block is left without taking a byte. */
    ghost function Rank(): nat
      reads this`state, this`chunkSize
    {
      if IsData(state) && chunkSize == 0 then 1 else 0
    }

    /** Decompressed bytes to come without another byte of the patch. */
    ghost function Pending(): nat
      reads reader.decoder`hist, reader.decoder`decoded
    {
      if |reader.decoder.hist| <= |reader.decoder.decoded| then |reader.decoder.decoded| - |reader.decoder.hist| else 0
    }

    /** The states of apply_patch_process_once that read the stream. */
    method Step() returns (res: int, ghost got: seq<byte>, ghost taken: seq<byte>)
      requires Active() && state != Done
      modifies this`state, this`fromOffset, this`toOffset, this`chunkSize, chunk`offset, chunk`rest
      modifies reader, reader.decoder, reader.decoder.buffers
      modifies flash`fromCurrent, flash`toCurrent, flash`writeBuf, flash`writes, flash.device
      ensures reader.Pulled(res, got, taken)
      ensures IsStatus(res) && (res >= 0 ==> Ready(got, taken))
      ensures res != HEATSHRINK_HEADER ==>
        && Reaches(host, old(Abs()), got, Now(res)) && Answered(old(Abs()), got, Drained())
        && Wrote(host, old(Abs()), old(flash.writes), got, Now(res), flash.writes)
      ensures Kept() && (res == HEATSHRINK_HEADER ==> flash.writes == old(flash.writes))
      ensures res == OK ==> got != [] || (taken == [] && Rank() < old(Rank()))
      ensures res == OK && (got != [] || taken != []) && IsSize(old(Abs()).state) ==> reader.SizeAbs() == First
      ensures res == NO_DATA ==> state != Done
      ensures res == OK && state == Done ==> got != [] && reader.Lazy(|reader.decoder.hist|)
    {
      InStepKept();
      match state {
        case DfpatchSize => res, got, taken := ProcessDfpatchSize();
        case DiffSize => res, got, taken := ProcessSize(DiffData);
        case DiffData => res, got, taken := ProcessData(ExtraSize);
        case ExtraSize => res, got, taken := ProcessSize(ExtraData);
        case ExtraData => res, got, taken := ProcessData(Adjustment);
        case Adjustment => res, got, taken := ProcessAdjustment();
      }
    }

    /** The call ends with the status, the bytes and the writes of the whole patch. */
    ghost predicate Ends(res: int)
      reads this`host, this`feed, flash`writes
    {
      var o := Apply(host, feed.whole);
      o.result == res && (res != IO_FAILED ==> o.out == flash.Output()) && flash.writes == WriteList(host, feed)
    }

    /** ... and, if the chunk had bytes left, with the error that stops the run there.
        Sealed alike. */
    ghost predicate EndsIn(res: int, live: bool)
      reads this`host, this`feed, flash`writes
    {
      forall u {:trigger OpenEnd(u)} :: OpenEnd(u) ==> Ends(res) && (live ==> Halts(host, feed) == Some(res))
    }

    lemma LeanCrisp()
      requires reader.Linked() && reader.Valid() && Lean()
      ensures PatchTrack.Crisp(Here())
    {
      reader.StreamGives();
      if reader.decoder.hist != [] && reader.Lazy(|reader.decoder.hist|) {
        reader.LazyNeeded(|reader.decoder.hist|);
      } else if reader.decoder.hist == [] && reader.decoder.sunk == [] {
        reader.decoder.DecodedIsDecode();
        ExpansionBound([]);
      }
    }

    /** After a step, in the terms of the specification. */
    lemma StepDone(res: int, s: Standing, p: seq<byte>, rest: seq<byte>, tail: seq<byte>, got: seq<byte>,
                   taken: seq<byte>)
      requires reader.Valid() && OnTrack(s, p) && PatchTrack.Fed(s.feed, p, rest, tail) && rest == taken + chunk.rest
      requires host == s.host && reader.Stream() == s.stream + taken && reader.decoder.hist == s.hist + got
      requires Wf(s.m) && Reaches(s.host, s.m, got, Now(res)) && Answered(s.m, got, Drained())
      requires Wrote(s.host, s.m, s.writes, got, Now(res), flash.writes)
      requires res == NO_DATA ==> Drained()
      requires res == OK && (got != [] || taken != []) && s.m.Running? && IsSize(s.m.state) ==>
        reader.SizeAbs() == First
      requires res <= NO_DATA
      ensures Stepped(s, p, rest, tail, taken, chunk.rest, reader.decoder.decoded, got, Now(res), flash.writes)
    {
      reader.StreamGives();
    }

    /** Nothing was taken that was not needed. */
    lemma StepCrisp(s: Standing, p: seq<byte>, got: seq<byte>, taken: seq<byte>)
      requires reader.Linked() && reader.Valid() && OnTrack(s, p)
      requires reader.Stream() == s.stream + taken && reader.decoder.hist == s.hist + got
      requires Lean() || (got == [] && taken == [])
      requires state == Done ==> got != [] && reader.Lazy(|reader.decoder.hist|)
      ensures Crisp(Here()) && (state == Done ==> Needed(reader.Stream(), |reader.decoder.hist|))
    {
      if Lean() {
        LeanCrisp();
      } else {
        reader.StreamGives();
        StillCrisp(s, Here(), p);
      }
      if state == Done {
        reader.LazyNeeded(|reader.decoder.hist|);
      }
    }

    lemma StepSucceeds(s: Standing, p: seq<byte>, rest: seq<byte>, tail: seq<byte>, got: seq<byte>, taken: seq<byte>)
      requires Begun() && s.m.Running? && s.m.toSize == toSize && s.header == header && s.feed == feed
      requires Stepped(s, p, rest, tail, taken, chunk.rest, reader.decoder.decoded, got, Abs(), flash.writes)
      requires host == s.host && reader.Stream() == s.stream + taken && reader.decoder.hist == s.hist + got
      requires Crisp(Here()) && (state == Done ==> Needed(reader.Stream(), |reader.decoder.hist|))
      ensures Tracks(p + taken) && (taken == [] ==> reader.decoder.decoded == s.decoded)
    {
      StepTracks(s, p, rest, tail, taken, chunk.rest, got, Here());
    }

    /** A step, in the terms of the specification. */
    method TakeStep(ghost p: seq<byte>, ghost tail: seq<byte>)
      returns (res: int, ghost got: seq<byte>, ghost taken: seq<byte>)
      requires reader.Linked() && Tracks(p) && Underway() && state != Done && Fed(feed, p, chunk.rest, tail)
      modifies this`state, this`fromOffset, this`toOffset, this`chunkSize, chunk`offset, chunk`rest
      modifies reader, reader.decoder, reader.decoder.buffers
      modifies flash`fromCurrent, flash`toCurrent, flash`writeBuf, flash`writes, flash.device
      ensures reader.Pulled(res, got, taken) && IsStatus(res) && Kept()
      ensures res == HEATSHRINK_HEADER ==> flash.writes == old(flash.writes)
      ensures res != HEATSHRINK_HEADER ==>
        Stepped(old(Here()), p, old(chunk.rest), tail, taken, chunk.rest, reader.decoder.decoded, got, Now(res),
                flash.writes)
      ensures res >= 0 ==> Begun() && (Lean() || (got == [] && taken == []))
      ensures res == OK ==> got != [] || (taken == [] && Rank() < old(Rank()))
      ensures res == NO_DATA ==> state != Done
      ensures res == OK && state == Done ==> got != [] && reader.Lazy(|reader.decoder.hist|)
    {
      assert OpenTracks(true);
      ghost var s, rest := Here(), chunk.rest;
      res, got, taken := Step();
      assert OpenStep(true);
      if res != HEATSHRINK_HEADER {
        StepDone(res, s, p, rest, tail, got, taken);
      }
    }

    lemma HereTracks(p: seq<byte>)
      requires Tracks(p) && Underway() && reader.Linked()
      ensures Wired() && OnTrack(Here(), p) && reader.decoder.hist <= reader.decoder.decoded
    {
      assert OpenTracks(true);
      reader.StreamGives();
    }

    /** A step that succeeds keeps the run on the track. */
    method StepTracked(ghost p: seq<byte>, ghost tail: seq<byte>)
      returns (res: int, ghost got: seq<byte>, ghost taken: seq<byte>)
      requires reader.Linked() && Tracks(p) && Underway() && state != Done && Fed(feed, p, chunk.rest, tail)
      modifies this`state, this`fromOffset, this`toOffset, this`chunkSize, chunk`offset, chunk`rest
      modifies reader, reader.decoder, reader.decoder.buffers
      modifies flash`fromCurrent, flash`toCurrent, flash`writeBuf, flash`writes, flash.device
      ensures reader.Pulled(res, got, taken) && IsStatus(res) && Kept()
      ensures res == HEATSHRINK_HEADER ==> flash.writes == old(flash.writes)
      ensures res < 0 && res != HEATSHRINK_HEADER ==>
        Stepped(old(Here()), p, old(chunk.rest), tail, taken, chunk.rest, reader.decoder.decoded, got, Now(res),
                flash.writes)
      ensures res >= 0 ==> Underway() && Tracks(p + taken)
      ensures res >= 0 && taken == [] ==> reader.decoder.decoded == old(reader.decoder.decoded)
      ensures res == OK ==> got != [] || (taken == [] && Rank() < old(Rank()))
      ensures res == NO_DATA ==> state != Done
    {
      HereTracks(p);
      ghost var s, rest := Here(), chunk.rest;
      res, got, taken := TakeStep(p, tail);
      if res >= 0 {
        StepCrisp(s, p, got, taken);
        StepSucceeds(s, p, rest, tail, got, taken);
      }
    }

    /** Every step either gets on or fails, and fails as the whole patch does. */
    method StepOn(ghost p: seq<byte>, ghost tail: seq<byte>) returns (res: int, ghost taken: seq<byte>)
      requires reader.Linked() && Tracks(p) && Underway() && state != Done && Fed(feed, p, chunk.rest, tail)
      modifies this`state, this`fromOffset, this`toOffset, this`chunkSize, chunk`offset, chunk`rest
      modifies reader, reader.decoder, reader.decoder.buffers
      modifies flash`fromCurrent, flash`toCurrent, flash`writeBuf, flash`writes, flash.device
      ensures chunk.Valid() && old(chunk.rest) == taken + chunk.rest && IsStatus(res) && Kept()
      ensures res >= 0 ==> Underway() && Tracks(p + taken)
      ensures res == OK ==>
        taken != [] || Pending() < old(Pending()) || (Pending() == old(Pending()) && Rank() < old(Rank()))
      ensures res == NO_DATA ==> chunk.rest == [] && (tail == [] ==> EndsIn(NOT_ENOUGH_PATCH_DATA, false))
      ensures res < 0 ==> EndsIn(res, old(chunk.rest) != [])
    {
      HereTracks(p);
      ghost var s, rest, rank, got := Here(), chunk.rest, Rank(), [];
      res, got, taken := StepTracked(p, tail);
      StepEnds(res, s, p, rest, tail, got, taken);
      if res >= 0 {
        GotOn(s, rank, got, taken, p + taken);
      }
    }

    lemma StepEnds(res: int, s: Standing, p: seq<byte>, rest: seq<byte>, tail: seq<byte>, got: seq<byte>,
                   taken: seq<byte>)
      requires OnTrack(s, p) && Fed(s.feed, p, rest, tail) && rest == taken + chunk.rest && host == s.host
      requires feed == s.feed
      requires res == HEATSHRINK_HEADER ==>
        s.stream == [] && !Over(s.m) && |taken| == 1 && !GoodWindow(taken[0]) && flash.writes == s.writes
      requires res < 0 && res != HEATSHRINK_HEADER ==>
        reader.Valid()
        && Stepped(s, p, rest, tail, taken, chunk.rest, reader.decoder.decoded, got, Now(res), flash.writes)
      requires res == NO_DATA ==> reader.Linked() && Tracks(p + taken) && Underway() && state != Done && Drained()
      ensures res < 0 ==> EndsIn(res, rest != [])
      ensures res == NO_DATA && tail == [] ==> EndsIn(NOT_ENOUGH_PATCH_DATA, false)
    {
      if res == HEATSHRINK_HEADER {
        Windowed(s, p, rest, tail, taken);
      } else if res < 0 {
        Broke(res, s, p, rest, tail, got, taken);
      } else if res == NO_DATA && tail == [] {
        RanShort(p, rest, taken);
      }
    }

    /** Without a byte of the patch, fewer bytes are pending, or an empty block was left. */
    lemma GotOn(s: Standing, rank: nat, got: seq<byte>, taken: seq<byte>, p: seq<byte>)
      requires Tracks(p) && Underway() && reader.Linked() && s.hist <= s.decoded
      requires reader.decoder.hist == s.hist + got && (taken == [] ==> reader.decoder.decoded == s.decoded)
      ensures got != [] || (taken == [] && Rank() < rank) ==>
        taken != [] || Pending() < |s.decoded| - |s.hist| || (Pending() == |s.decoded| - |s.hist| && Rank() < rank)
    {
      assert OpenTracks(true);
      reader.StreamGives();
    }

    lemma Windowed(s: Standing, p: seq<byte>, rest: seq<byte>, tail: seq<byte>, taken: seq<byte>)
      requires OnTrack(s, p) && Fed(s.feed, p, rest, tail) && rest == taken + chunk.rest && s.stream == [] && !Over(s.m)
      requires |taken| == 1 && !GoodWindow(taken[0]) && host == s.host && feed == s.feed && flash.writes == s.writes
      ensures EndsIn(HEATSHRINK_HEADER, true)
    {
      WindowFails(s, p, rest, tail, taken, chunk.rest);
    }

    lemma Broke(res: int, s: Standing, p: seq<byte>, rest: seq<byte>, tail: seq<byte>, got: seq<byte>, taken: seq<byte>)
      requires reader.Valid() && res < 0 && host == s.host && feed == s.feed
      requires Stepped(s, p, rest, tail, taken, chunk.rest, reader.decoder.decoded, got, Now(res), flash.writes)
      ensures EndsIn(res, rest != [])
    {
      StepFails(s, p, rest, tail, taken, chunk.rest, reader.decoder.decoded, got, Now(res), flash.writes);
      if rest != [] {
        StepHalts(s, p, rest, tail, taken, chunk.rest, reader.decoder.decoded, got, Now(res), flash.writes);
      }
    }

    lemma RanShort(p: seq<byte>, rest: seq<byte>, taken: seq<byte>)
      requires Tracks(p + taken) && Underway() && state != Done && Offers(feed, p, rest, [])
      requires reader.Linked() && rest == taken + chunk.rest && Drained()
      ensures EndsIn(NOT_ENOUGH_PATCH_DATA, false)
    {
      assert OpenTracks(true);
      WholeTaken(feed, p, rest, taken);
      EndsHere(Here(), p + taken);
    }

    /** The status when the patch ends with the machine: surplus output is an error. */
    ghost function DoneStatus(): int
      reads this`toSize, reader.decoder`hist, reader.decoder`decoded
    {
      if reader.decoder.hist == reader.decoder.decoded then toSize else CORRUPT_PATCH
    }

    lemma DoneOn(p: seq<byte>, tail: seq<byte>)
      requires Tracks(p) && state == Done && Fed(feed, p, chunk.rest, tail)
      ensures if chunk.rest + tail == [] then destroySet && reader.Valid() && Ends(DoneStatus())
              else EndsIn(ALREADY_DONE, chunk.rest != [])
    {
      assert OpenTracks(true);
      Assoc(p, chunk.rest, tail);
      if chunk.rest + tail == [] {
        assert feed.whole == p;
        EndsHere(Here(), p);
      } else {
        EndsTrailing(Here(), p, chunk.rest + tail);
      }
    }

    /** The first step: `outer` is what the chunk says. */
    method InitOn(ghost p: seq<byte>, ghost outer: HeaderResult) returns (res: int, ghost taken: seq<byte>)
      requires Tracks(p) && state == Init && outer == Header(chunk.rest)
      modifies this`compression, this`header, this`toOffset, this`toSize, this`state, this`destroySet
      modifies chunk`offset, chunk`rest, reader, reader.decoder, reader.decoder.buffers
      ensures Wired() && Kept() && flash.writes == []
      ensures outer == if res == OK then HeaderOk(toSize, |taken|) else HeaderError(res)
      ensures res == OK ==> old(chunk.rest) == taken + chunk.rest && taken != [] && Underway() && Tracks(p + taken)
      ensures res == OK || (res < 0 && res != ALREADY_DONE)
    {
      assert OpenTracks(true);
      InStepKept();
      res, taken := ProcessInit();
      assert p + taken == taken;
    }

    /** apply_patch_process_once. `p` has been taken of the patch, `tail` comes after
        this chunk. */
    method ProcessOnce(ghost p: seq<byte>, ghost tail: seq<byte>, ghost outer: HeaderResult)
      returns (res: int, ghost taken: seq<byte>)
      requires Wired() && Kept() && (state == Failed || (Tracks(p) && Fed(feed, p, chunk.rest, tail)))
      requires state == Init ==> outer == Header(chunk.rest)
      modifies this`state, this`fromOffset, this`toOffset, this`chunkSize, chunk`offset, chunk`rest
      modifies this`compression, this`header, this`toSize, this`destroySet
      modifies reader, reader.decoder, reader.decoder.buffers
      modifies flash`fromCurrent, flash`toCurrent, flash`writeBuf, flash`writes, flash.device
      ensures Wired() && Kept()
      ensures res in {OK, NO_DATA} || (res < 0 && state == Failed)
      ensures old(state) == Failed ==>
        res == ALREADY_FAILED && chunk.rest == old(chunk.rest) && flash.writes == old(flash.writes)
      ensures old(state) != Failed && res >= 0 ==>
        old(chunk.rest) == taken + chunk.rest && Underway() && Tracks(p + taken)
      ensures old(state) == Init && res >= 0 ==> outer.HeaderOk?
      ensures res == OK ==>
        taken != [] || Pending() < old(Pending()) || (Pending() == old(Pending()) && Rank() < old(Rank()))
      ensures res == NO_DATA ==> chunk.rest == [] && (tail == [] ==> EndsIn(NOT_ENOUGH_PATCH_DATA, false))
      ensures res < 0 && old(state) != Failed ==>
        if old(state) == Init then outer == HeaderError(res) && flash.writes == []
        else if old(state) == Done && old(chunk.rest) + tail == [] then
          res == ALREADY_DONE && destroySet && reader.Valid() && Ends(DoneStatus())
        else
          (res == ALREADY_DONE ==> old(state) == Done) && EndsIn(res, old(chunk.rest) != [])
    {
      taken := [];
      match state {
        case Init =>
          res, taken := InitOn(p, outer);
        case Done =>
          DoneOn(p, tail);
          res := ALREADY_DONE;
        case Failed => res := ALREADY_FAILED;
        case _ =>
          assert OpenTracks(true);
          res, taken := StepOn(p, tail);
      }
      if res < 0 {
        Fail();
      }
    }

    method Fail()
      requires Kept()
      modifies this`state
      ensures Kept() && state == Failed
    {
      state := Failed;
    }

    /** The cursors follow the offsets, and no block reaches beyond the target; a block
        with a negative size is too large ever to be finished. */
    lemma Lockstep(p: seq<byte>)
      requires Tracks(p) && Underway() && host.room <= MAX_ROOM
      ensures flash.fromCurrent == flash.layout.primaryOffset + fromOffset < flash.fromEnd
      ensures flash.toCurrent == flash.layout.secondaryOffset + toOffset < flash.toEnd
      ensures toOffset == |flash.Output()| && (state == Done ==> toOffset == toSize)
      ensures IsData(state) && toOffset + chunkSize > toSize ==> toOffset + chunkSize >= MAX_ROOM
    {
      assert OpenTracks(true) && OpenCursor(true);
      TrackAccounted(Here(), p);
    }

    // -- the public interface -----------------------------------------------------------

    /** How offering a chunk can fail: as the whole patch does, or as the header in the
        first chunk does. */
    ghost predicate FailsAs(res: int, outer: HeaderResult)
      reads this`host, this`feed, flash`writes
    {
      if outer.HeaderError? then outer.code == res && flash.writes == [] else EndsIn(res, true)
    }

    /** The next chunk. */
    method LoadChunk(data: seq<byte>, ghost p: seq<byte>)
      requires Wired() && Kept() && (state == Failed || Tracks(p))
      modifies this`patchOffset, chunk
      ensures Wired() && Kept() && (state == Failed || Tracks(p)) && chunk.rest == data
      ensures patchOffset == old(patchOffset) + |data|
    {
      if state != Failed {
        TracksInStep(p);
      }
      FillChunk(data);
    }

    method FillChunk(data: seq<byte>)
      requires Wired() && Kept() && (state == Init || state == Failed || InStep())
      modifies this`patchOffset, chunk
      ensures Wired() && Kept() && (old(InStep()) ==> InStep()) && chunk.rest == data
      ensures patchOffset == old(patchOffset) + |data|
    {
      patchOffset := patchOffset + |data|;
      chunk.Load(data, |data|);
    }

    /** Inside a call of process, `done` of `data` has been taken; `failed` says that the
        run had failed before, with these writes. Sealed alike. */
    ghost predicate Inside(res: int, outer: HeaderResult, p: seq<byte>, done: seq<byte>, data: seq<byte>,
                           failed: bool, writes: seq<seq<byte>>)
      reads this, chunk, reader.chunk, reader, reader.decoder, reader.decoder.buffers
      reads flash`patchEnd, flash`fromCurrent, flash`fromEnd, flash`toCurrent, flash`toEnd, flash`writeBuf
      reads flash`origin, flash`writes, flash.device
    {
      forall u {:trigger OpenTurn(u)} :: OpenTurn(u) ==>
        if failed then
          && state == Failed && flash.writes == writes
          && if res < 0 then res == ALREADY_FAILED && data != [] else res == OK && chunk.rest == data
        else if res < 0 then state == Failed && FailsAs(res, outer)
        else
          && state != Failed && data == done + chunk.rest && Tracks(p + done)
          && if state == Init then chunk.rest == data && outer == Header(data) else outer.HeaderOk?
    }

    /** One turn of the loop in process. */
    method ProcessNext(ghost outer: HeaderResult, ghost p: seq<byte>, ghost done: seq<byte>, ghost data: seq<byte>,
                       ghost tail: seq<byte>, ghost failed: bool, ghost writes: seq<seq<byte>>)
      returns (res: int, ghost taken: seq<byte>)
      requires Wired() && Kept() && chunk.rest != [] && (failed || Offers(feed, p, data, tail))
      requires Inside(OK, outer, p, done, data, failed, writes)
      modifies this`state, this`fromOffset, this`toOffset, this`chunkSize, chunk`offset, chunk`rest
      modifies this`compression, this`header, this`toSize, this`destroySet
      modifies reader, reader.decoder, reader.decoder.buffers
      modifies flash`fromCurrent, flash`toCurrent, flash`writeBuf, flash`writes, flash.device
      ensures Wired() && Kept() && (res in {OK, NO_DATA} || res < 0)
      ensures Inside(res, outer, p, done + taken, data, failed, writes)
      ensures res >= 0 ==> !failed && Underway() && (res == NO_DATA ==> chunk.rest == [])
      ensures res == OK ==>
        |chunk.rest| < old(|chunk.rest|)
        || (chunk.rest == old(chunk.rest)
            && (Pending() < old(Pending()) || (Pending() == old(Pending()) && Rank() < old(Rank()))))
    {
      assert OpenTurn(true);
      if !failed {
        OffersRest(feed, p, done, chunk.rest, tail);
      }
      res, taken := ProcessOnce(p + done, tail, outer);
      Assoc(done, taken, chunk.rest);
      Assoc(p, done, taken);
    }

    /** detools_apply_patch_process: `p` was offered before, `tail` comes after. The
        first chunk must have all of the header. */
    method Process(data: seq<byte>, ghost p: seq<byte>, ghost tail: seq<byte>, ghost outer: HeaderResult)
      returns (res: int)
      requires Wired() && Kept() && (state == Failed || (Tracks(p) && Offers(feed, p, data, tail)))
      requires if state == Init then outer == Header(data) else outer.HeaderOk?
      modifies this`state, this`fromOffset, this`toOffset, this`chunkSize, chunk
      modifies this`compression, this`header, this`toSize, this`destroySet, this`patchOffset
      modifies reader, reader.decoder, reader.decoder.buffers
      modifies flash`fromCurrent, flash`toCurrent, flash`writeBuf, flash`writes, flash.device
      ensures Wired() && Kept() && patchOffset == old(patchOffset) + |data|
      ensures old(state) == Failed ==>
        res == (if data == [] then 0 else -24) && state == Failed && flash.writes == old(flash.writes)
      ensures old(state) != Failed && res == OK ==>
        Tracks(p + data) && state != Failed && (data != [] ==> state != Init && outer.HeaderOk?)
      ensures res == OK || (res < 0 && state == Failed)
      ensures data == [] ==> res == OK && state == old(state)
      ensures old(state) != Failed && res != OK ==> FailsAs(res, outer)
    {
      LoadChunk(data, p);
      res := ProcessAll(data, p, tail, outer);
      if res == NO_DATA {
        res := OK;
      }
    }

    /** The loop in process. */
    method ProcessAll(ghost data: seq<byte>, ghost p: seq<byte>, ghost tail: seq<byte>, ghost outer: HeaderResult)
      returns (res: int)
      requires Wired() && Kept() && chunk.rest == data
      requires (state == Failed || (Tracks(p) && Offers(feed, p, data, tail)))
      requires if state == Init then outer == Header(data) else outer.HeaderOk?
      modifies this`state, this`fromOffset, this`toOffset, this`chunkSize, chunk`offset, chunk`rest
      modifies this`compression, this`header, this`toSize, this`destroySet
      modifies reader, reader.decoder, reader.decoder.buffers
      modifies flash`fromCurrent, flash`toCurrent, flash`writeBuf, flash`writes, flash.device
      ensures Wired() && Kept() && (res in {OK, NO_DATA} || res < 0)
      ensures data == [] ==> res == OK && state == old(state)
      ensures old(state) == Failed ==>
        res == (if data == [] then OK else ALREADY_FAILED) && state == Failed && flash.writes == old(flash.writes)
      ensures old(state) != Failed && res >= 0 ==>
        Tracks(p + data) && state != Failed && (data != [] ==> state != Init && outer.HeaderOk?)
      ensures old(state) != Failed && res < 0 ==> state == Failed && FailsAs(res, outer)
    {
      res := OK;
      ghost var done, failed, writes := [], state == Failed, flash.writes;
      assert p + done == p;
      while chunk.Available() && res >= 0
        invariant Wired() && Kept() && (res in {OK, NO_DATA} || res < 0)
        invariant data == [] ==> res == OK && state == old(state) && chunk.rest == []
        invariant Inside(res, outer, p, done, data, failed, writes)
        decreases if res < 0 then 0 else 1, |chunk.rest|, Pending(), Rank()
      {
        ghost var taken;
        res, taken := ProcessNext(outer, p, done, data, tail, failed, writes);
        done := done + taken;
      }
      InsideSays(res, outer, p, done, data, failed, writes);
      if chunk.rest == [] {
        NothingMore(done);
      }
    }

    lemma InsideSays(res: int, outer: HeaderResult, p: seq<byte>, done: seq<byte>, data: seq<byte>, failed: bool,
                     writes: seq<seq<byte>>)
      requires Inside(res, outer, p, done, data, failed, writes)
      ensures failed ==>
        && state == Failed && flash.writes == writes
        && if res < 0 then res == ALREADY_FAILED && data != [] else res == OK && chunk.rest == data
      ensures !failed && res < 0 ==> state == Failed && FailsAs(res, outer)
      ensures !failed && res >= 0 ==>
        && state != Failed && data == done + chunk.rest && Tracks(p + done)
        && if state == Init then chunk.rest == data else outer.HeaderOk?
    {
      assert OpenTurn(true);
    }

    /** apply_patch_common_finalize */
    method CommonFinalize(status: int) returns (res: int)
      requires status != OK && (status == ALREADY_DONE ==> destroySet && reader.Valid())
      ensures res == if status == NO_DATA then NOT_ENOUGH_PATCH_DATA
                     else if status == ALREADY_DONE then DoneStatus()
                     else status
    {
      res := status;
      if res == NO_DATA {
        res := NOT_ENOUGH_PATCH_DATA;
      }
      if res == ALREADY_DONE {
        res := OK;
      }
      if destroySet {
        var destroyed := reader.Destroy();
        if res == OK {
          res := destroyed;
        }
      }
      if res == OK {
        res := toSize;
      }
    }

    /** What the last step of finalize leaves. */
    ghost predicate Finished(status: int)
      reads this, chunk, reader.chunk, reader, reader.decoder, reader.decoder.buffers, flash`writes
    {
      if status == NO_DATA then Ends(NOT_ENOUGH_PATCH_DATA)
      else if status == ALREADY_DONE then destroySet && reader.Valid() && Ends(DoneStatus())
      else Ends(status)
    }

    lemma TracksInStep(p: seq<byte>)
      requires Tracks(p)
      ensures InStep()
    {
      assert OpenTracks(true);
    }

    lemma NothingTaken(p: seq<byte>)
      requires Tracks(p) && state == Init
      ensures p == [] && flash.writes == []
    {
      assert OpenTracks(true);
    }

    /** One turn of the loop in finalize: there is no chunk. */
    method FinalizeOnce(ghost p: seq<byte>) returns (res: int)
      requires Wired() && Kept() && chunk.rest == [] && (state == Failed || (Tracks(p) && feed.whole == p))
      modifies this`state, this`fromOffset, this`toOffset, this`chunkSize, chunk`offset, chunk`rest
      modifies this`compression, this`header, this`toSize, this`destroySet
      modifies reader, reader.decoder, reader.decoder.buffers
      modifies flash`fromCurrent, flash`toCurrent, flash`writeBuf, flash`writes, flash.device
      ensures Wired() && Kept() && (res in {OK, NO_DATA} || res < 0)
      ensures old(state) == Failed ==> res == ALREADY_FAILED && flash.writes == old(flash.writes)
      ensures res == OK ==> chunk.rest == [] && state != Failed && Tracks(p)
      ensures res == OK ==> Pending() < old(Pending()) || (Pending() == old(Pending()) && Rank() < old(Rank()))
      ensures res != OK && old(state) != Failed ==> Finished(res)
    {
      ghost var taken, outer, first := [], Header([]), state == Init;
      assert p + [] == p && p + [] + [] == p;
      if first {
        NothingTaken(p);
      }
      res, taken := ProcessOnce(p, [], outer);
      assert OpenEnd(true);
      if res == OK {
        assert taken == [] && p + taken == p;
      }
      if first {
        NoPatch(host, feed, res);
      }
    }

    /** detools_apply_patch_finalize */
    method Finalize(ghost p: seq<byte>) returns (res: int)
      requires Wired() && Kept() && (state == Failed || (Tracks(p) && feed.whole == p))
      modifies this`state, this`fromOffset, this`toOffset, this`chunkSize, chunk
      modifies this`compression, this`header, this`toSize, this`destroySet, this`patchOffset
      modifies reader, reader.decoder, reader.decoder.buffers
      modifies flash`fromCurrent, flash`toCurrent, flash`writeBuf, flash`writes, flash.device
      ensures Wired() && Kept() && patchOffset == old(patchOffset)
      ensures old(state) == Failed ==> res == -24 && flash.writes == old(flash.writes)
      ensures old(state) != Failed ==> Ends(res)
    {
      LoadChunk([], p);
      var status := OK;
      while status == OK
        invariant Wired() && Kept() && patchOffset == old(patchOffset)
        invariant old(state) == Failed ==>
          flash.writes == old(flash.writes) && if status == OK then state == Failed else status == ALREADY_FAILED
        invariant status == OK ==> chunk.rest == [] && (old(state) != Failed ==> state != Failed && Tracks(p))
        invariant status != OK && old(state) != Failed ==> Finished(status)
        decreases if status == OK then 1 else 0, Pending(), Rank()
      {
        status := FinalizeOnce(p);
      }
      res := CommonFinalize(status);
    }

    /** detools_apply_patch_init has been called, the source is at its start. */
    ghost predicate Initialised()
      reads this, chunk, reader.chunk, reader, reader.decoder
      reads flash`patchEnd, flash`fromCurrent, flash`fromEnd, flash`toCurrent, flash`toEnd, flash`writeBuf
      reads flash`origin, flash`writes, flash.device
    {
      && state == Init && !destroySet && fromOffset == 0 && patchOffset == 0 && Wired() && reader.Linked()
      && reader.decoder.buffers.Length == 256 + Pow2(STATIC_CONFIG.w) && InStep()
    }

    /** detools_apply_patch_init. The target may have been written to already, by a run
        that is going to be restored. */
    method InitPatch(size: nat, ghost feed: Feed)
      requires Wired() && reader.Linked() && reader.decoder.buffers.Length == 256 + Pow2(STATIC_CONFIG.w)
      requires flash.Steady() && flash.fromCurrent == flash.layout.primaryOffset < flash.fromEnd
      modifies this
      ensures Initialised() && Kept() && this.feed == feed && patchOffset == 0 && patchSize == size
      ensures flash.writes == [] ==> Tracks([])
      ensures host == Host(flash.device[..flash.fromEnd], flash.layout.primaryOffset, flash.layout.secondarySize)
    {
      patchSize, patchOffset, fromOffset := size, 0, 0;
      state, destroySet := Init, false;
      host := Host(flash.device[..flash.fromEnd], flash.layout.primaryOffset, flash.layout.secondarySize);
      this.feed := feed;
      StartsInStep();
      NothingYet();
    }

    lemma StartsInStep()
      requires flash.Steady() && flash.fromCurrent == flash.layout.primaryOffset < flash.fromEnd && fromOffset == 0
      requires host == Host(flash.device[..flash.fromEnd], flash.layout.primaryOffset, flash.layout.secondarySize)
      ensures InStep() && Kept()
    {
    }

    lemma NothingYet()
      requires Initialised()
      ensures flash.writes == [] ==> Tracks([])
    {
    }

    /** The run over the chunks ends as the whole patch does, if the first chunk that is
        not empty decides the header as the whole patch does. */
    ghost predicate Concludes(res: int, chunks: seq<seq<byte>>)
      reads this`host, this`feed, flash`writes
    {
      if Header(FirstChunk(chunks)) == Header(Flatten(chunks)) then Ends(res)
      else res == SHORT_HEADER && flash.writes == []
    }

    /** After `done` of the chunks have been offered. */
    ghost predicate Offered(res: int, chunks: seq<seq<byte>>, outer: HeaderResult, done: seq<byte>, i: nat)
      requires i <= |chunks|
      reads this, chunk, reader.chunk, reader, reader.decoder, reader.decoder.buffers
      reads flash`patchEnd, flash`fromCurrent, flash`fromEnd, flash`toCurrent, flash`toEnd, flash`writeBuf
      reads flash`origin, flash`writes, flash.device
    {
      if res != OK then state == Failed && FailsAs(res, outer)
      else
        && Flatten(chunks) == done + Flatten(chunks[i..]) && |done| == Total(chunks, i)
        && state != Failed && Tracks(done) && patchOffset == |done|
        && if state == Init then outer == Header(FirstChunk(chunks[i..])) else outer.HeaderOk?
    }

    lemma OfferedFailed(res: int, chunks: seq<seq<byte>>, outer: HeaderResult)
      requires outer == Header(FirstChunk(chunks)) && FailsAs(res, outer) && feed == FeedOf(chunks)
      ensures Concludes(res, chunks)
    {
      assert OpenEnd(true);
      ChunkFailed(host, feed, chunks, FirstChunk(chunks), outer, res);
    }

    lemma OfferedAll(res: int, chunks: seq<seq<byte>>, outer: HeaderResult, done: seq<byte>)
      requires outer == Header(FirstChunk(chunks)) && Offered(OK, chunks, outer, done, |chunks|)
      ensures done == Flatten(chunks) && Header(FirstChunk(chunks)) == Header(Flatten(chunks))
    {
      assert chunks[|chunks|..] == [];
      assert done + [] == done;
      if state != Init {
        ChunkDecided(chunks);
      } else {
        NothingTaken(done);
      }
    }

    method OfferChunk(chunks: seq<seq<byte>>, i: nat, ghost outer: HeaderResult,
                      ghost done: seq<byte>) returns (res: int)
      requires Wired() && Kept() && i < |chunks| && Offered(OK, chunks, outer, done, i) && feed == FeedOf(chunks)
      modifies this`state, this`fromOffset, this`toOffset, this`chunkSize, chunk
      modifies this`compression, this`header, this`toSize, this`destroySet, this`patchOffset
      modifies reader, reader.decoder, reader.decoder.buffers
      modifies flash`fromCurrent, flash`toCurrent, flash`writeBuf, flash`writes, flash.device
      ensures Wired() && Kept() && Offered(res, chunks, outer, done + chunks[i], i + 1)
    {
      NextChunk(chunks, i, done, Flatten(chunks));
      ChunkOffers(chunks, i, done);
      res := Process(chunks[i], done, Flatten(chunks[i + 1..]), if state == Init then Header(chunks[i]) else outer);
    }

    /** The chunks from the i-th to before the k-th. */
    method OfferUntil(chunks: seq<seq<byte>>, i: nat, k: nat, ghost outer: HeaderResult, ghost done: seq<byte>)
      returns (res: int, ghost offered: seq<byte>)
      requires Wired() && Kept() && i <= k <= |chunks| && Offered(OK, chunks, outer, done, i) && feed == FeedOf(chunks)
      modifies this`state, this`fromOffset, this`toOffset, this`chunkSize, chunk
      modifies this`compression, this`header, this`toSize, this`destroySet, this`patchOffset
      modifies reader, reader.decoder, reader.decoder.buffers
      modifies flash`fromCurrent, flash`toCurrent, flash`writeBuf, flash`writes, flash.device
      ensures Wired() && Kept()
      ensures (if res == OK then Offered(OK, chunks, outer, offered, k) else state == Failed && FailsAs(res, outer))
    {
      res, offered := OK, done;
      var at := i;
      while at < k && res == OK
        invariant i <= at <= k && Wired() && Kept() && Offered(res, chunks, outer, offered, at)
      {
        res := OfferChunk(chunks, at, outer, offered);
        offered := offered + chunks[at];
        at := at + 1;
      }
    }

    /** The chunks from the i-th on, and finalize. */
    method Conclude(chunks: seq<seq<byte>>, i: nat, ghost outer: HeaderResult, ghost done: seq<byte>) returns (res: int)
      requires Wired() && Kept() && i <= |chunks| && Offered(OK, chunks, outer, done, i) && feed == FeedOf(chunks)
      requires outer == Header(FirstChunk(chunks))
      modifies this`state, this`fromOffset, this`toOffset, this`chunkSize, chunk
      modifies this`compression, this`header, this`toSize, this`destroySet, this`patchOffset
      modifies reader, reader.decoder, reader.decoder.buffers
      modifies flash`fromCurrent, flash`toCurrent, flash`writeBuf, flash`writes, flash.device
      ensures Kept() && Concludes(res, chunks)
    {
      ghost var offered;
      res, offered := OfferUntil(chunks, i, |chunks|, outer, done);
      if res == OK {
        OfferedAll(res, chunks, outer, offered);
        res := Finalize(offered);
      } else {
        OfferedFailed(res, chunks, outer);
        var ignored := Finalize(offered);
      }
    }

    lemma Concluded(res: int, chunks: seq<seq<byte>>)
      requires Kept() && Concludes(res, chunks) && feed == FeedOf(chunks)
      ensures flash.Valid()
      ensures var o := Apply(host, Flatten(chunks));
        if Header(FirstChunk(chunks)) == Header(Flatten(chunks)) then
          res == o.result && flash.writes == WriteList(host, feed) && (res != IO_FAILED ==> flash.Output() == o.out)
        else res == SHORT_HEADER && flash.writes == []
    {
      KeptValid();
    }

    /** Only empty chunks lie between two that begin at the same offset. */
    lemma OfferedAt(chunks: seq<seq<byte>>, outer: HeaderResult, done: seq<byte>, i: nat, k: nat)
      requires i <= k <= |chunks| && Total(chunks, i) == Total(chunks, k) && Offered(OK, chunks, outer, done, k)
      ensures Offered(OK, chunks, outer, done, i)
    {
      SameOffset(chunks, i, k);
    }

    lemma OfferedNone(chunks: seq<seq<byte>>)
      requires state == Init && Tracks([]) && patchOffset == 0
      ensures Offered(OK, chunks, Header(FirstChunk(chunks)), [], 0)
    {
      assert chunks[0..] == chunks;
      assert [] + Flatten(chunks) == Flatten(chunks);
    }

    /** A patch offered in chunks, then finalized. Whatever the chunks are, the status
        and the bytes written are those of the whole patch, if the first chunk that is
        not empty decides the header as the whole patch does. If it does not, the
        status is SHORT_HEADER. */
    method ApplyChunks(chunks: seq<seq<byte>>) returns (res: int)
      requires Wired() && Kept() && state == Init && Tracks([]) && feed == FeedOf(chunks) && patchOffset == 0
      modifies this`state, this`fromOffset, this`toOffset, this`chunkSize, chunk
      modifies this`compression, this`header, this`toSize, this`destroySet, this`patchOffset
      modifies reader, reader.decoder, reader.decoder.buffers
      modifies flash`fromCurrent, flash`toCurrent, flash`writeBuf, flash`writes, flash.device
      ensures Kept() && Concludes(res, chunks)
    {
      OfferedNone(chunks);
      res := Conclude(chunks, 0, Header(FirstChunk(chunks)), []);
    }

    // -- dump and restore -----------------------------------------------------------------

    /** detools_apply_patch_dump: what is passed to the state_write callback. */
    function Dump(): Image
      reads this, reader, reader.decoder, reader.decoder.buffers
    {
      Image(state, compression, patchSize, patchOffset, toOffset, toSize, fromOffset, chunkSize, reader.Image())
    }

    /** detools_apply_patch_init has been called, the source is at its start and the
        target after the bytes already written. */
    ghost predicate Restorable(original: ApplyPatch)
      reads this, chunk, reader.chunk, reader, reader.decoder, reader.decoder.buffers
      reads flash`patchEnd, flash`fromCurrent, flash`fromEnd, flash`toCurrent, flash`toEnd, flash`writeBuf
      reads flash`origin, flash`writes, flash.device
      reads original`host, original`feed, original.flash`writes
    {
      Initialised() && host == original.host && feed == original.feed && flash.writes == original.flash.writes
    }

    /** The two objects share nothing but the device. */
    ghost predicate Apart(original: ApplyPatch) {
      && this != original && chunk != original.chunk && reader != original.reader
      && reader.decoder != original.reader.decoder && reader.decoder.buffers != original.reader.decoder.buffers
      && reader.decoder.buffers != original.flash.device && original.reader.decoder.buffers != flash.device
      && original.reader.chunk == original.chunk
    }

    method CopyFields(dumped: Image)
      modifies this`state, this`compression, this`patchOffset, this`toOffset, this`toSize, this`chunkSize
      modifies this`patchSize
      ensures state == dumped.state && compression == dumped.compression && patchOffset == dumped.patchOffset
      ensures toOffset == dumped.toOffset && toSize == dumped.toSize && chunkSize == dumped.chunkSize
      ensures patchSize == dumped.patchSize
    {
      state, compression, patchOffset := dumped.state, dumped.compression, dumped.patchOffset;
      toOffset, toSize, chunkSize, patchSize := dumped.toOffset, dumped.toSize, dumped.chunkSize, dumped.patchSize;
    }

    /** The seek and the patch reader. `s` and `size` are where the original stands. */
    method RestoreRun(dumped: Image, ghost original: ApplyPatch, ghost s: Standing, ghost size: SizeState)
      returns (res: int)
      requires Wired() && reader.Linked() && InStep() && fromOffset == 0 && SeekOk(host, dumped.fromOffset)
      requires Apart(original) && dumped.reader == original.reader.Image() && original.reader.Valid()
      requires reader.decoder.buffers.Length == original.reader.decoder.buffers.Length
      requires s == original.Here() && size == original.reader.SizeAbs()
      modifies this`fromOffset, this`destroySet, this`header
      modifies reader, reader.decoder, reader.decoder.buffers, flash`fromCurrent
      ensures res == OK && Wired() && InStep() && reader.Valid() && destroySet && fromOffset == dumped.fromOffset
      ensures header == s.header && Reads(s, size)
    {
      var ok := SeekSource(dumped.fromOffset);
      if !ok {
        return IO_FAILED;
      }
      RestoreReader(dumped, original, s, size);
      res := OK;
    }

    method RestoreReader(dumped: Image, ghost original: ApplyPatch, ghost s: Standing, ghost size: SizeState)
      requires Wired() && reader.Linked() && Apart(original) && original.reader.Valid() && InStep()
      requires dumped.reader == original.reader.Image() && s == original.Here() && size == original.reader.SizeAbs()
      requires reader.decoder.buffers.Length == original.reader.decoder.buffers.Length
      modifies this`destroySet, this`header, reader, reader.decoder, reader.decoder.buffers
      ensures InStep() && Wired() && reader.Valid() && Reads(s, size) && destroySet && header == s.header
    {
      header, destroySet := s.header, true;
      reader.Restore(dumped.reader, original.reader);
    }

    /** The patch reader stands there. */
    ghost predicate Reads(s: Standing, size: SizeState)
      requires reader.Linked()
      reads reader, reader.chunk, reader.decoder
    {
      && reader.Stream() == s.stream && reader.SizeAbs() == size
      && reader.decoder.hist == s.hist && reader.decoder.decoded == s.decoded
    }

    /** The flash as a dump finds it. */
    lemma Resumable(p: seq<byte>)
      requires state != Failed && Tracks(p)
      ensures flash.Steady() && flash.fromEnd == flash.layout.primaryOffset + flash.layout.primarySize
      ensures host == Host(flash.device[..flash.fromEnd], flash.layout.primaryOffset, flash.layout.secondarySize)
      ensures state == Init ==> flash.writes == []
    {
      assert OpenTracks(true) && OpenCursor(true);
    }

    lemma SameStanding(s: Standing, size: SizeState)
      requires Wired() && reader.Valid() && InStep() && destroySet && Underway() && Reads(s, size) && Wf(s.m)
      requires host == s.host && feed == s.feed && header == s.header && flash.writes == s.writes
      requires s.m == MachineOf(state, size, toSize, toOffset, chunkSize, fromOffset, |s.hist|, flash.Output())
      ensures Here() == s && Begun()
    {
    }

    lemma MidSeek()
      requires InStep()
      ensures SeekOk(host, fromOffset)
    {
      assert OpenCursor(true);
    }

    /** A dump of a run that has begun. */
    method RestoreBegun(dumped: Image, ghost original: ApplyPatch) returns (res: int)
      requires Apart(original) && Restorable(original) && dumped == original.Dump() && original.Begun()
      requires original.reader.decoder.buffers.Length == 256 + Pow2(STATIC_CONFIG.w)
      modifies this`state, this`compression, this`patchOffset, this`toOffset, this`toSize, this`chunkSize
      modifies this`patchSize
      modifies this`fromOffset, this`destroySet, this`header
      modifies reader, reader.decoder, reader.decoder.buffers, flash`fromCurrent
      ensures res == OK && Begun() && Here() == old(original.Here()) && state == dumped.state
      ensures patchOffset == dumped.patchOffset && patchSize == dumped.patchSize
      ensures compression == dumped.compression && toOffset == dumped.toOffset && toSize == dumped.toSize
      ensures fromOffset == dumped.fromOffset && chunkSize == dumped.chunkSize
    {
      ghost var s, size := original.Here(), original.reader.SizeAbs();
      original.MidSeek();
      res := RestoreFields(dumped, original, s, size);
      SameStanding(s, size);
    }

    method RestoreFields(dumped: Image, ghost original: ApplyPatch, ghost s: Standing, ghost size: SizeState)
      returns (res: int)
      requires Apart(original) && Restorable(original) && dumped == original.Dump() && original.reader.Valid()
      requires SeekOk(host, dumped.fromOffset) && s == original.Here() && size == original.reader.SizeAbs()
      requires original.reader.decoder.buffers.Length == 256 + Pow2(STATIC_CONFIG.w)
      modifies this`state, this`compression, this`patchOffset, this`toOffset, this`toSize, this`chunkSize
      modifies this`patchSize
      modifies this`fromOffset, this`destroySet, this`header
      modifies reader, reader.decoder, reader.decoder.buffers, flash`fromCurrent
      ensures res == OK && Wired() && InStep() && reader.Valid() && destroySet && header == s.header && Reads(s, size)
      ensures state == dumped.state && toSize == dumped.toSize && toOffset == dumped.toOffset
      ensures chunkSize == dumped.chunkSize && fromOffset == dumped.fromOffset && compression == dumped.compression
      ensures patchOffset == dumped.patchOffset && patchSize == dumped.patchSize
    {
      CopyFields(dumped);
      res := RestoreRun(dumped, original, s, size);
    }

    /** detools_apply_patch_restore, of a dump made between two calls of process: the
        seek succeeds, and the run goes on where the dumped one was. */
    method Restore(dumped: Image, ghost original: ApplyPatch, ghost p: seq<byte>) returns (res: int)
      requires Apart(original) && Restorable(original) && dumped == original.Dump()
      requires original.state != Failed && original.Tracks(p) && original.patchOffset == |p|
      requires original.reader.decoder.buffers.Length == 256 + Pow2(STATIC_CONFIG.w)
      modifies this, reader, reader.decoder, reader.decoder.buffers, flash`fromCurrent
      ensures res == OK && Wired() && Kept() && Tracks(p) && host == old(host) && feed == old(feed)
      ensures state == original.state && patchSize == original.patchSize
      ensures patchOffset == original.patchOffset == |p|
      ensures state != Init ==>
        && compression == original.compression && toOffset == original.toOffset && toSize == original.toSize
        && fromOffset == original.fromOffset && chunkSize == original.chunkSize
    {
      assert OpenTracks(true);
      InStepKept();
      if dumped.state == Init {
        patchSize := dumped.patchSize;
        return OK;
      }
      res := RestoreBegun(dumped, original);
    }

    // -- the patch in the flash -----------------------------------------------------------

    /** The patch, as it was in the flash before the run. */
    ghost function PatchBytes(n: nat): seq<byte>
      requires PatchStart() + n <= |flash.origin|
      reads flash`origin
    {
      flash.origin[PatchStart()..PatchStart() + n]
    }

    ghost function PatchStart(): nat {
      flash.layout.storageOffset + FlashSpec.HEADER_SIZE
    }

    /** The read callback never gets to the end of the patch partition, nor beyond the flash. */
    ghost predicate Readable(n: nat)
      reads flash`origin
    {
      FlashSpec.Reachable(flash.layout, |flash.origin|, n)
    }

    /** The patch_read callback. The part of the flash that holds the patch has not changed. */
    method ReadPatch(n: nat, ghost at: nat) returns (ok: bool, data: seq<byte>)
      requires InStep() && n > 0 && flash.patchCurrent == PatchStart() + at
      modifies flash`patchCurrent
      ensures InStep()
      ensures ok <==> Readable(at + n)
      ensures ok ==> flash.patchCurrent == PatchStart() + at + n && |data| == n
      ensures ok ==> data == flash.origin[PatchStart() + at..PatchStart() + at + n]
    {
      PatchBounds();
      var res;
      res, data := flash.PatchRead(n);
      ok := res == DELTA_OK;
      if ok {
        StorageKept(PatchStart() + at, PatchStart() + at + n);
      }
    }

    lemma PatchBounds()
      requires InStep()
      ensures |flash.origin| == flash.device.Length && flash.patchEnd == PatchStart() + flash.layout.storageSize
      ensures flash.Valid()
    {
      assert OpenCursor(true);
    }

    lemma StorageKept(a: nat, b: nat)
      requires InStep() && PatchStart() <= a <= b <= flash.device.Length
      ensures |flash.origin| == flash.device.Length && flash.device[a..b] == flash.origin[a..b]
    {
      assert OpenCursor(true);
      flash.OutsideKept();
      SamePiece(flash.device[..], flash.origin, flash.layout.storageOffset, a, b);
    }

    /** The next chunk of the patch. */
    method ReadChunk(n: nat, ghost at: nat, ghost end: nat, ghost p: seq<byte>) returns (ok: bool, data: seq<byte>)
      requires Wired() && Kept() && state != Failed && Tracks(p) && n > 0
      requires flash.patchCurrent == PatchStart() + at && end == at + n
      modifies flash`patchCurrent
      ensures Wired() && Kept() && Tracks(p)
      ensures ok <==> Readable(end)
      ensures ok ==> flash.patchCurrent == PatchStart() + end && |data| == n
      ensures ok ==> PatchBytes(end) == PatchBytes(at) + data
    {
      TracksInStep(p);
      ok, data := ReadPatch(n, at);
      if ok {
        Piece(flash.origin, PatchStart(), PatchStart() + at, PatchStart() + end);
      }
    }

    /** What the callbacks read of a patch of this size, in chunks. */
    ghost predicate FeedsFlash(size: nat, readable: nat)
      reads this`feed, flash`origin
    {
      && readable == FlashSpec.ReadableSize(flash.layout, |flash.origin|, size, CHUNK_SIZE)
      && Readable(0) && PatchStart() + readable <= |flash.origin| && feed == ChunkedFeed(PatchBytes(readable))
    }

    /** In callbacks_process, with `at` of the patch read. Sealed. */
    ghost predicate Reading(res: int, at: nat, size: nat, readable: nat, outer: HeaderResult)
      reads this, chunk, reader.chunk, reader, reader.decoder, reader.decoder.buffers
      reads flash`patchEnd, flash`fromCurrent, flash`fromEnd, flash`toCurrent, flash`toEnd, flash`writeBuf
      reads flash`origin, flash`writes, flash`patchCurrent, flash.device
    {
      forall u {:trigger OpenReading(u)} :: OpenReading(u) ==> ReadingAt(res, at, size, readable, outer)
    }

    ghost predicate ReadingAt(res: int, at: nat, size: nat, readable: nat, outer: HeaderResult)
      reads this, chunk, reader.chunk, reader, reader.decoder, reader.decoder.buffers
      reads flash`patchEnd, flash`fromCurrent, flash`fromEnd, flash`toCurrent, flash`toEnd, flash`writeBuf
      reads flash`origin, flash`writes, flash`patchCurrent, flash.device
    {
      && PatchStart() + at <= |flash.origin| && at <= readable <= size
      && if res == OK then
           && state != Failed && Tracks(PatchBytes(at)) && flash.patchCurrent == PatchStart() + at
           && (at % CHUNK_SIZE == 0 || at == size)
           && if at == 0 then state == Init else state != Init && outer.HeaderOk?
         else if state == Failed then res < 0 && at > 0 && FailsAs(res, outer)
         else res == IO_FAILED && !Readable(size) && at == readable && Tracks(PatchBytes(at))
    }

    /** One chunk is read and processed. */
    method OfferRead(at: nat, size: nat, ghost readable: nat, ghost outer: HeaderResult) returns (res: int, next: nat)
      requires Wired() && Kept() && Reading(OK, at, size, readable, outer) && at < size && FeedsFlash(size, readable)
      requires at == 0 && readable > 0 ==> outer == FirstHeader(feed.whole)
      modifies this`state, this`fromOffset, this`toOffset, this`chunkSize, chunk
      modifies this`compression, this`header, this`toSize, this`destroySet, this`patchOffset
      modifies reader, reader.decoder, reader.decoder.buffers
      modifies flash`fromCurrent, flash`toCurrent, flash`writeBuf, flash`writes, flash`patchCurrent, flash.device
      ensures Wired() && Kept() && Reading(res, next, size, readable, outer) && (res == OK ==> next > at)
    {
      var n := if size - at < CHUNK_SIZE then size - at else CHUNK_SIZE;
      next := at + n;
      ReadingMore(at, n, next, size, readable, outer);
      var ok, data := ReadChunk(n, at, next, PatchBytes(at));
      if ok {
        res := OfferData(at, n, next, size, readable, data, outer);
      } else {
        next := at;
        res := IO_FAILED;
        ReadingStops(at, size, readable, outer);
      }
    }

    lemma ReadingMore(at: nat, n: nat, next: nat, size: nat, readable: nat, outer: HeaderResult)
      requires Reading(OK, at, size, readable, outer) && FeedsFlash(size, readable) && at < size
      requires n == (if size - at < CHUNK_SIZE then size - at else CHUNK_SIZE) && next == at + n
      ensures PatchStart() + at <= |flash.origin| && at <= readable <= size && at % CHUNK_SIZE == 0
      ensures state != Failed && Tracks(PatchBytes(at)) && flash.patchCurrent == PatchStart() + at
      ensures if at == 0 then state == Init else state != Init && outer.HeaderOk?
      ensures next == size || next % CHUNK_SIZE == 0
      ensures if Readable(next) then next <= readable else !Readable(size) && at == readable
    {
      assert OpenReading(true);
      FlashSpec.NextReadable(flash.layout, |flash.origin|, size, CHUNK_SIZE, at, n);
    }

    lemma ReadingStops(at: nat, size: nat, readable: nat, outer: HeaderResult)
      requires PatchStart() + at <= |flash.origin| && at == readable <= size && !Readable(size)
      requires state != Failed && Tracks(PatchBytes(at))
      ensures Reading(IO_FAILED, at, size, readable, outer)
    {
    }

    lemma ReadingOn(res: int, next: nat, size: nat, readable: nat, outer: HeaderResult, p: seq<byte>)
      requires PatchStart() + next <= |flash.origin| && 0 < next <= readable <= size && p == PatchBytes(next)
      requires next % CHUNK_SIZE == 0 || next == size
      requires if res == OK then Underway() && Tracks(p) && outer.HeaderOk? && flash.patchCurrent == PatchStart() + next
               else res < 0 && state == Failed && FailsAs(res, outer)
      ensures Reading(res, next, size, readable, outer)
    {
    }

    method OfferData(at: nat, n: nat, next: nat, size: nat, ghost readable: nat, data: seq<byte>,
                     ghost outer: HeaderResult)
      returns (res: int)
      requires next == at + n && PatchStart() + next <= |flash.origin|
      requires Wired() && Kept() && state != Failed && Tracks(PatchBytes(at)) && FeedsFlash(size, readable)
      requires if at == 0 then state == Init && outer == FirstHeader(feed.whole) else outer.HeaderOk? && state != Init
      requires 0 < n <= CHUNK_SIZE && |data| == n && next <= readable <= size && at % CHUNK_SIZE == 0
      requires next == size || (n == CHUNK_SIZE && next % CHUNK_SIZE == 0)
      requires flash.patchCurrent == PatchStart() + next && PatchBytes(next) == PatchBytes(at) + data
      modifies this`state, this`fromOffset, this`toOffset, this`chunkSize, chunk
      modifies this`compression, this`header, this`toSize, this`destroySet, this`patchOffset
      modifies reader, reader.decoder, reader.decoder.buffers
      modifies flash`fromCurrent, flash`toCurrent, flash`writeBuf, flash`writes, flash.device
      ensures Wired() && Kept() && Reading(res, next, size, readable, outer)
    {
      ghost var p := PatchBytes(at);
      ghost var tail := PatchTail(at, n, size, readable, data);
      res := Process(data, p, tail, outer);
      ReadingOn(res, next, size, readable, outer, p + data);
    }

    lemma PatchTail(at: nat, n: nat, size: nat, readable: nat, data: seq<byte>) returns (tail: seq<byte>)
      requires FeedsFlash(size, readable) && at + n <= readable <= size && |data| == n
      requires PatchStart() + at + n <= |flash.origin| && PatchBytes(at + n) == PatchBytes(at) + data
      requires at % CHUNK_SIZE == 0 && (n == CHUNK_SIZE || (n < CHUNK_SIZE && at + n == size))
      ensures Offers(feed, PatchBytes(at), data, tail)
      ensures at == 0 ==> FirstHeader(feed.whole) == Header(data)
    {
      var start := PatchStart();
      tail := flash.origin[start + at + n..start + readable];
      Piece(flash.origin, start, start + at + n, start + readable);
      ChunkedOffers(PatchBytes(at), data, tail);
      if at == 0 {
        FirstPiece(data, tail);
        assert PatchBytes(readable) == data + tail;
      }
    }

    /** callbacks_process: the patch is read in chunks of 512 bytes. */
    method CallbacksProcess(size: nat, ghost readable: nat) returns (res: int)
      requires Wired() && Kept() && state == Init && Tracks([]) && flash.patchCurrent == PatchStart()
      requires FeedsFlash(size, readable)
      modifies this`state, this`fromOffset, this`toOffset, this`chunkSize, chunk
      modifies this`compression, this`header, this`toSize, this`destroySet, this`patchOffset
      modifies reader, reader.decoder, reader.decoder.buffers
      modifies flash`fromCurrent, flash`toCurrent, flash`writeBuf, flash`writes, flash`patchCurrent, flash.device
      ensures Kept() && flash.writes == WriteList(host, feed)
      ensures if Readable(size) then readable == size && Ends(res) else res == Unread(host, feed)
    {
      res := OK;
      var at: nat := 0;
      ghost var outer := FirstHeader(feed.whole);
      StartReading(size, readable, outer);
      while at < size && res == OK
        invariant Wired() && Kept() && Reading(res, at, size, readable, outer)
        decreases if res == OK then 1 else 0, size - at
      {
        res, at := OfferRead(at, size, readable, outer);
      }
      assert OpenReading(true);
      if res == OK {
        res := Finalize(PatchBytes(at));
      } else {
        ReadingFailed(res, at, size, readable, outer);
        var ignored := Finalize(PatchBytes(at));
      }
    }

    lemma StartReading(size: nat, readable: nat, outer: HeaderResult)
      requires Wired() && state == Init && Tracks([]) && flash.patchCurrent == PatchStart()
      requires FeedsFlash(size, readable)
      ensures Reading(OK, 0, size, readable, outer) && readable <= size && (Readable(size) ==> readable == size)
    {
      assert OpenTracks(true) && OpenCursor(true);
      assert PatchBytes(0) == [];
    }

    lemma ReadingFailed(res: int, at: nat, size: nat, readable: nat, outer: HeaderResult)
      requires ReadingAt(res, at, size, readable, outer) && res != OK && FeedsFlash(size, readable)
      requires outer == FirstHeader(feed.whole)
      ensures if state == Failed then Ends(res) && res == Unread(host, feed)
              else !Readable(size) && res == Unread(host, feed) && feed.whole == PatchBytes(at)
    {
      assert OpenEnd(true);
      if state != Failed {
        NothingFailed(PatchBytes(at));
      } else if outer.HeaderError? {
        FirstFails(host, feed, res);
      }
    }

    /** All of the patch has been offered, and the run goes on. */
    lemma NothingFailed(p: seq<byte>)
      requires Tracks(p) && state != Failed && feed.whole == p
      ensures Halts(host, feed) == None
    {
      assert OpenTracks(true);
      if state != Init {
        NotHalted(Here(), p);
      }
    }
  }

  /** A new object over the same device goes on where `first` was when it was dumped,
      with k of the chunks offered. */
  method HandOver(first: ApplyPatch, size: nat, ghost chunks: seq<seq<byte>>, ghost k: nat, ghost outer: HeaderResult,
                  ghost done: seq<byte>) returns (second: ApplyPatch)
    requires first.Wired() && first.Kept() && k <= |chunks| && first.Offered(OK, chunks, outer, done, k)
    requires first.reader.decoder.buffers.Length == 256 + Pow2(STATIC_CONFIG.w)
    ensures fresh(second) && fresh(second.flash) && fresh(second.chunk) && fresh(second.reader)
    ensures fresh(second.reader.decoder) && fresh(second.reader.decoder.buffers)
    ensures second.flash.device == first.flash.device && second.host == first.host && second.feed == first.feed
    ensures second.Wired() && second.Kept() && second.Offered(OK, chunks, outer, done, k)
    ensures second.state == first.state && second.patchSize == first.patchSize
    ensures second.patchOffset == first.patchOffset == Total(chunks, k)
  {
    var dumped := first.Dump();
    second := InitAnew(first, size, done);
    var restored := second.Restore(dumped, first, done);
  }

  method InitAnew(first: ApplyPatch, size: nat, ghost done: seq<byte>) returns (second: ApplyPatch)
    requires first.Wired() && first.state != Failed && first.Tracks(done)
    ensures fresh(second) && fresh(second.flash) && fresh(second.chunk) && fresh(second.reader)
    ensures fresh(second.reader.decoder) && fresh(second.reader.decoder.buffers)
    ensures second.flash.device == first.flash.device && second.Restorable(first) && second.Apart(first)
  {
    first.Resumable(done);
    var flash := new FlashMem.Resume(first.flash);
    second := new ApplyPatch(flash);
    second.InitPatch(size, first.feed);
  }

  /** The chunk that begins behind `offset` bytes of the patch. */
  method ChunkAt(chunks: seq<seq<byte>>, offset: nat, ghost k: nat) returns (i: nat)
    requires k <= |chunks| && Total(chunks, k) == offset
    ensures i <= k && Total(chunks, i) == offset
  {
    i := 0;
    var at: nat := 0;
    while at < offset
      invariant i <= k && at == Total(chunks, i) <= offset
      decreases k - i
    {
      TotalMore(chunks, i + 1, k);
      at, i := at + |chunks[i]|, i + 1;
    }
  }

  /** A patch offered in chunks, with a dump after k of them. A new object restores it and
      is offered the chunks from the restored patch offset on: the status and the writes
      are those of the whole patch. */
  method ApplyInterrupted(flash: FlashMem, size: nat, chunks: seq<seq<byte>>, k: nat, ghost h: Host)
    returns (res: int, last: FlashMem)
    requires flash.Steady() && flash.writes == [] && k <= |chunks|
    requires flash.fromCurrent == flash.layout.primaryOffset < flash.fromEnd
    requires h == Host(flash.device[..flash.fromEnd], flash.layout.primaryOffset, flash.layout.secondarySize)
    modifies flash`fromCurrent, flash`toCurrent, flash`writeBuf, flash`writes, flash.device
    ensures last.Valid() && last.device == flash.device
    ensures var o := Apply(h, Flatten(chunks));
      if Header(FirstChunk(chunks)) == Header(Flatten(chunks)) then
        && res == o.result && last.writes == WriteList(h, FeedOf(chunks))
        && (res != IO_FAILED ==> last.Output() == o.out)
      else res == SHORT_HEADER && last.writes == []
  {
    var first, res1;
    ghost var done;
    res1, first, done := OfferFirst(flash, size, chunks, k, h);
    res, last := res1, flash;
    if res1 == OK {
      var second := HandOver(first, size, chunks, k, Header(FirstChunk(chunks)), done);
      last := second.flash;
      var i := ChunkAt(chunks, second.patchOffset, k);
      second.OfferedAt(chunks, Header(FirstChunk(chunks)), done, i, k);
      res := second.Conclude(chunks, i, Header(FirstChunk(chunks)), done);
      second.Concluded(res, chunks);
    } else {
      first.Concluded(res, chunks);
    }
  }

  /** The first k chunks, offered to a new object. */
  method OfferFirst(flash: FlashMem, size: nat, chunks: seq<seq<byte>>, k: nat, ghost h: Host)
    returns (res: int, first: ApplyPatch, ghost done: seq<byte>)
    requires flash.Steady() && flash.writes == [] && k <= |chunks|
    requires flash.fromCurrent == flash.layout.primaryOffset < flash.fromEnd
    requires h == Host(flash.device[..flash.fromEnd], flash.layout.primaryOffset, flash.layout.secondarySize)
    modifies flash`fromCurrent, flash`toCurrent, flash`writeBuf, flash`writes, flash.device
    ensures first.flash == flash && first.host == h && first.feed == FeedOf(chunks) && first.Wired() && first.Kept()
    ensures fresh(first) && fresh(first.chunk) && fresh(first.reader) && fresh(first.reader.decoder)
    ensures fresh(first.reader.decoder.buffers) && first.reader.decoder.buffers.Length == 256 + Pow2(STATIC_CONFIG.w)
    ensures if res == OK then first.Offered(OK, chunks, Header(FirstChunk(chunks)), done, k)
            else first.Concludes(res, chunks)
  {
    first := new ApplyPatch(flash);
    first.InitPatch(size, FeedOf(chunks));
    first.OfferedNone(chunks);
    res, done := first.OfferUntil(chunks, 0, k, Header(FirstChunk(chunks)), []);
    if res != OK {
      first.OfferedFailed(res, chunks, Header(FirstChunk(chunks)));
    }
  }

  /** detools_apply_patch_callbacks, from a flash that delta_init has prepared: the
      status, output and writes of the patch, unless its end cannot be read. Then the
      writes are those of what can be read. */
  method ApplyPatchCallbacks(flash: FlashMem, size: nat, ghost h: Host, ghost feed: Feed) returns (res: int)
    requires flash.Steady() && flash.writes == []
    requires flash.fromCurrent == flash.layout.primaryOffset < flash.fromEnd
    requires flash.patchCurrent == flash.layout.storageOffset + FlashSpec.HEADER_SIZE
    requires h == Host(flash.device[..flash.fromEnd], flash.layout.primaryOffset, flash.layout.secondarySize)
    requires var n := FlashSpec.ReadableSize(flash.layout, |flash.origin|, size, CHUNK_SIZE);
      var begin := flash.layout.storageOffset + FlashSpec.HEADER_SIZE;
      begin + n <= |flash.origin| && feed == ChunkedFeed(flash.origin[begin..begin + n])
    modifies flash`fromCurrent, flash`toCurrent, flash`writeBuf, flash`writes, flash`patchCurrent, flash.device
    ensures flash.Valid() && flash.writes == WriteList(h, feed)
    ensures var o := Apply(h, feed.whole);
      if FlashSpec.Reachable(flash.layout, |flash.origin|, size) then
        res == o.result && (res != IO_FAILED ==> flash.Output() == o.out)
      else res == Unread(h, feed)
  {
    var apply := new ApplyPatch(flash);
    apply.InitPatch(size, feed);
    ghost var n := FlashSpec.ReadableSize(flash.layout, |flash.origin|, size, CHUNK_SIZE);
    assert apply.PatchStart() == flash.layout.storageOffset + FlashSpec.HEADER_SIZE;
    res := apply.CallbacksProcess(size, n);
    apply.KeptValid();
  }
}
