/** The patch reader of detools.c: pulls compressed bytes out of the current chunk,
    one at a time and no earlier than needed, and reads size fields across chunks. */
module PatchReading {
  import opened Bytes
  import opened HeatshrinkSpec
  import opened HeatshrinkDecoding
  import opened Varint
  import PatchRuns
  import PatchSpec

  const OK: int := 0
  const NO_DATA: int := 1

  /** detools_apply_patch_chunk_t */
  class PatchChunk {
    var buf: seq<byte>
    var size: nat
    var offset: nat
    ghost var rest: seq<byte>     // the bytes not yet taken

    ghost predicate Valid()
      reads this
    {
      offset <= size <= |buf| && rest == buf[offset..size]
    }

    constructor ()
      ensures Valid() && rest == []
    {
      buf, size, offset, rest := [], 0, 0, [];
    }

    method Load(data: seq<byte>, length: nat)
      requires length == |data| || length == 0
      modifies this
      ensures Valid() && rest == data[..length]
    {
      buf, size, offset := data, length, 0;
      rest := data[..length];
    }

    /** chunk_available */
    predicate Available()
      requires Valid()
      reads this
    {
      size - offset > 0
    }

    method Get() returns (res: int, data: byte)
      requires Valid()
      modifies this`offset, this`rest
      ensures Valid()
      ensures res == if old(rest) == [] then NO_DATA else OK
      ensures res == OK ==> old(rest) == [data] + rest
      ensures res == NO_DATA ==> rest == []
    {
      if !Available() {
        return NO_DATA, 0;
      }
      data := buf[offset];
      offset := offset + 1;
      rest := rest[1..];
      res := OK;
    }

    /** chunk_unpack_header_size: the size that follows the patch type. It never gets
        negative, and the chunk must hold all of it. */
    method UnpackHeaderSize(ghost first: byte, ghost outer: PatchSpec.HeaderResult)
      returns (res: int, size: int, ghost taken: seq<byte>)
      requires Valid() && first / 16 % 8 == 0 && outer == PatchSpec.Header([first] + rest)
      modifies this`offset, this`rest
      ensures Valid() && size >= 0 && (res == OK ==> old(rest) == taken + rest)
      ensures res in {OK, PatchSpec.SHORT_HEADER, PatchSpec.CORRUPT_PATCH_OVERFLOW}
      ensures outer == if res == OK then PatchSpec.HeaderOk(size, 1 + |taken|) else PatchSpec.HeaderError(res)
    {
      ghost var all := rest;
      size, taken := 0, [];
      var b;
      res, b := Get();
      HeaderFirst(outer, first, b, [first] + all, rest);
      if res != OK {
        return PatchSpec.SHORT_HEADER, size, taken;
      }
      taken := [b];
      size := b % 64;
      var offset := 6;
      while b >= 128
        invariant res == OK && Valid() && all == taken + rest
        invariant offset in {6, 13, 20, 27} && 0 <= size < Pow2(offset)
        invariant HeaderSoFar(outer, [first] + all, 1 + |taken|, b, size, offset)
        decreases |rest|, b
      {
        res, b, size, taken := UnpackHeaderByte(outer, first, taken, all, size, offset);
        if res != OK {
          return;
        }
        offset := offset + 7;
      }
    }

    /** One more byte of the size. */
    method UnpackHeaderByte(ghost outer: PatchSpec.HeaderResult, ghost first: byte, ghost was: seq<byte>,
                            ghost all: seq<byte>, value: nat, offset: nat)
      returns (res: int, b: byte, size: int, ghost taken: seq<byte>)
      requires Valid() && all == was + rest && offset in {6, 13, 20, 27} && value < Pow2(offset)
      requires outer == PatchSpec.HeaderTail([first] + all, 1 + |was|, value, offset)
      modifies this`offset, this`rest
      ensures Valid() && size >= 0
      ensures res == OK ==>
        && |rest| < old(|rest|) && all == taken + rest && |taken| == 1 + |was|
        && offset != 27 && size < Pow2(offset + 7)
        && HeaderSoFar(outer, [first] + all, 1 + |taken|, b, size, offset + 7)
      ensures res != OK ==> outer == PatchSpec.HeaderError(res)
      ensures res in {OK, PatchSpec.SHORT_HEADER, PatchSpec.CORRUPT_PATCH_OVERFLOW}
    {
      Assoc([first], was, rest);
      HeaderMore(outer, first, was, rest, [first] + all, value, offset);
      size, taken := value, was;
      res, b := Get();
      if res != OK {
        return PatchSpec.SHORT_HEADER, b, size, taken;
      }
      if IsOverflow(offset) {
        return PatchSpec.CORRUPT_PATCH_OVERFLOW, b, size, taken;
      }
      Assoc(was, [b], rest);
      taken := was + [b];
      size := OrShifted(value, b, offset);
    }
  }

  /** What the header is when i bytes have been read, the last of them b. */
  predicate HeaderSoFar(outer: PatchSpec.HeaderResult, p: seq<byte>, i: nat, b: byte, size: nat, offset: nat) {
    outer == if b < 128 then PatchSpec.HeaderOk(size, i) else PatchSpec.HeaderTail(p, i, size, offset)
  }

  lemma HeaderFirst(outer: PatchSpec.HeaderResult, first: byte, b: byte, p: seq<byte>, rest: seq<byte>)
    requires first / 16 % 8 == 0 && outer == PatchSpec.Header(p)
    ensures p == [first] + [] ==> outer == PatchSpec.HeaderError(PatchSpec.SHORT_HEADER)
    ensures p == [first] + ([b] + rest) ==> HeaderSoFar(outer, p, 2, b, b % 64, 6)
    ensures b % 64 < Pow2(6)
  {
    Offsets();
  }

  lemma HeaderMore(outer: PatchSpec.HeaderResult, first: byte, was: seq<byte>, rest: seq<byte>, p: seq<byte>,
                   size: nat, offset: nat)
    requires p == [first] + was + rest && offset in {6, 13, 20, 27} && size < Pow2(offset)
    requires outer == PatchSpec.HeaderTail(p, 1 + |was|, size, offset)
    ensures rest == [] ==> outer == PatchSpec.HeaderError(PatchSpec.SHORT_HEADER)
    ensures rest != [] ==>
      if IsOverflow(offset) then outer == PatchSpec.HeaderError(PatchSpec.CORRUPT_PATCH_OVERFLOW)
      else
        && offset != 27
        && HeaderSoFar(outer, p, 2 + |was|, rest[0], size + rest[0] % 128 * Pow2(offset), offset + 7)
        && size + rest[0] % 128 * Pow2(offset) < Pow2(offset + 7)
  {
    if rest != [] {
      assert p[1 + |was|] == rest[0];
      if !IsOverflow(offset) {
        ShiftBound(size, offset, rest[0]);
      }
    }
  }

  /** `value |= (byte & 0x7f) << offset` adds: the low bits are free. */
  method OrShifted(value: nat, b: byte, offset: nat) returns (r: nat)
    requires offset in {6, 13, 20} && value < Pow2(offset)
    ensures r == value + b % 128 * Pow2(offset)
  {
    ShiftBound(value, offset, b);
    OrIsAdd(b % 128 * Pow2(offset), value, offset);
    OrCommutes(value, b % 128 * Pow2(offset));
    r := BitOr(value, b % 128 * Pow2(offset));
  }

  lemma ExtendSize(s: SizeState, bs: seq<byte>, b: byte, more: seq<byte>)
    requires ReadSize(s, bs).Partial? && more in {[], [b]}
    ensures more == [] ==> bs + more == bs
    ensures more == [b] ==>
      && ReadSize(s, bs + more) == SizeByte(ReadSize(s, bs).state, b)
      && bs + more != [] && ReadSize(s, (bs + more)[..|bs + more| - 1]).Partial?
  {
    ReadSizeSnoc(s, bs, b);
    assert (bs + [b])[..|bs + [b]| - 1] == bs;
  }

  /** The bytes of the struct, as a dump stores them. */
  datatype ReaderImage = ReaderImage(sizeFirst: bool, sizeValue: int, sizeOffset: nat, sizeSigned: bool,
                                     windowSz2: int, lookaheadSz2: int, decoder: DecoderImage)

  /** The chunk, what was delivered and what was taken, at one time. */
  datatype Standpoint = Standpoint(rest: seq<byte>, hist: seq<byte>, stream: seq<byte>)

  lemma Onward(start: Standpoint, mid: Standpoint, got: seq<byte>, taken: seq<byte>, bytes: seq<byte>,
               pulled: seq<byte>,
               rest: seq<byte>)
    requires start.rest == taken + mid.rest && mid.rest == pulled + rest
    ensures start.rest == taken + pulled + rest
    ensures mid.hist == start.hist + got ==> mid.hist + bytes == start.hist + (got + bytes)
    ensures mid.stream == start.stream + taken ==> mid.stream + pulled == start.stream + (taken + pulled)
  {
    Assoc(taken, pulled, rest);
    Assoc(start.hist, got, bytes);
    Assoc(start.stream, taken, pulled);
  }

  class PatchReader {
    const chunk: PatchChunk
    const decoder: HeatshrinkDecoder
    var sizeFirst: bool           // size.state
    var sizeValue: int
    var sizeOffset: nat
    var sizeSigned: bool
    var windowSz2: int
    var lookaheadSz2: int

    ghost predicate Linked()
      reads this, chunk
    {
      && chunk.Valid()
      && decoder.config == STATIC_CONFIG && decoder.inputBufferSize == 256
      && (sizeFirst || (sizeValue >= 0 && WfSize(More(sizeValue, sizeOffset, sizeSigned))))
    }

    ghost predicate Valid()
      reads this, chunk, decoder, decoder.buffers
    {
      && Linked()
      && decoder.Resting()
      && (windowSz2 == -1 ==> decoder.sunk == [] && decoder.hist == [] && decoder.decoded == [])
      && Lazy(|decoder.hist| + 1)
    }

    /** No more compressed bytes were taken than the first n decompressed ones need. */
    ghost predicate Lazy(n: nat)
      reads decoder`sunk, decoder`behind
    {
      decoder.sunk != [] ==> decoder.behind < n
    }

    /** Every byte taken from the chunks so far. */
    ghost function Stream(): seq<byte>
      reads this`windowSz2, decoder`sunk
    {
      if windowSz2 == -1 then [] else [0x44] + decoder.sunk
    }

    ghost function SizeAbs(): SizeState
      requires Linked()
      reads this, chunk
    {
      if sizeFirst then First else More(sizeValue, sizeOffset, sizeSigned)
    }

    /** What a step of the patcher has pulled through this reader: `taken` out of the
        chunk, giving the decompressed bytes `got`. */
    twostate predicate Pulled(res: int, got: seq<byte>, taken: seq<byte>)
      reads this, chunk, decoder, decoder.buffers
    {
      && chunk.Valid() && old(chunk.rest) == taken + chunk.rest
      && decoder.hist == old(decoder.hist) + got
      && (if res == PatchSpec.HEATSHRINK_HEADER then
            old(Stream()) == [] && |taken| == 1 && !PatchSpec.GoodWindow(taken[0]) && got == []
          else Valid() && Stream() == old(Stream()) + taken)
      && (res == NO_DATA ==> chunk.rest == [] && decoder.hist == decoder.decoded)
    }

    constructor (chunk: PatchChunk)
      requires chunk.Valid()
      ensures this.chunk == chunk && fresh(decoder) && fresh(decoder.buffers) && Linked()
      ensures decoder.buffers.Length == 256 + Pow2(STATIC_CONFIG.w)
    {
      this.chunk := chunk;
      decoder := new HeatshrinkDecoder(STATIC_CONFIG, 256);
      sizeFirst, sizeValue, sizeOffset, sizeSigned := true, 0, 0, false;
      windowSz2, lookaheadSz2 := -1, -1;
    }

    /** patch_reader_init */
    method Init()
      requires Linked() && decoder.buffers.Length == 256 + Pow2(STATIC_CONFIG.w)
      modifies this, decoder, decoder.buffers
      ensures Valid() && Stream() == [] && decoder.hist == [] && SizeAbs() == First
    {
      sizeFirst := true;
      windowSz2, lookaheadSz2 := -1, -1;
      decoder.Reset();
      decoder.ResetResting();
    }

    /** The first byte of the stream holds the window sizes, which must be the
        decoder's own. */
    method ReadWindowSizes() returns (res: int, ghost taken: seq<byte>)
      requires Valid() && windowSz2 == -1
      modifies this`windowSz2, this`lookaheadSz2, chunk`offset, chunk`rest
      ensures chunk.Valid() && old(chunk.rest) == taken + chunk.rest
      ensures res == NO_DATA ==> Valid() && windowSz2 == -1 && taken == [] && chunk.rest == []
      ensures res == OK ==> Valid() && windowSz2 != -1 && taken == [0x44]
      ensures res == PatchSpec.HEATSHRINK_HEADER ==> |taken| == 1 && !PatchSpec.GoodWindow(taken[0])
      ensures res in {OK, NO_DATA, PatchSpec.HEATSHRINK_HEADER}
    {
      taken := [];
      var got, b := chunk.Get();
      if got != OK {
        return NO_DATA, taken;
      }
      taken := [b];
      windowSz2 := b / 16 + 4;
      lookaheadSz2 := b % 16 + 3;
      if windowSz2 != STATIC_CONFIG.w || lookaheadSz2 != STATIC_CONFIG.l {
        return PatchSpec.HEATSHRINK_HEADER, taken;
      }
      res := OK;
    }

    /** patch_reader_heatshrink_decompress: some of the `want` bytes when any can be
        had, taking no compressed byte before it is needed. */
    method Decompress(want: nat) returns (res: int, got: seq<byte>, ghost taken: seq<byte>)
      requires Valid() && want >= 1
      modifies this`windowSz2, this`lookaheadSz2, chunk`offset, chunk`rest, decoder, decoder.buffers
      ensures Pulled(res, got, taken)
      ensures res in {OK, NO_DATA, PatchSpec.HEATSHRINK_HEADER} && |got| <= want
      ensures got == [] <==> res != OK
      ensures res == OK && |got| == want ==> Lazy(|decoder.hist|)
      ensures res == OK && |got| < want ==> chunk.rest == [] && decoder.hist == decoder.decoded
    {
      res, got, taken := OK, [], [];
      if windowSz2 == -1 {
        res, taken := ReadWindowSizes();
        if res != OK {
          return;
        }
      }
      ghost var first, begun := taken, Stream();
      assert begun == old(Stream()) + first;
      ghost var more;
      res, got, more := Pull(want);
      Assoc(first, more, chunk.rest);
      Assoc(old(Stream()), first, more);
      Assoc([0x44], old(decoder.sunk), more);
      assert Stream() == begun + more;
      taken := first + more;
    }

    /** The loop of the decompressor: poll, and sink a byte when there is one. */
    method Pull(want: nat) returns (res: int, got: seq<byte>, ghost taken: seq<byte>)
      requires Valid() && want >= 1 && windowSz2 != -1
      modifies chunk`offset, chunk`rest, decoder, decoder.buffers
      ensures Valid() && old(chunk.rest) == taken + chunk.rest && decoder.sunk == old(decoder.sunk) + taken
      ensures decoder.hist == old(decoder.hist) + got && |got| <= want
      ensures res == if got == [] then NO_DATA else OK
      ensures |got| == want ==> Lazy(|decoder.hist|)
      ensures |got| < want ==> chunk.rest == [] && decoder.hist == decoder.decoded
    {
      got, taken := [], [];
      decoder.RestingReady();
      while true
        invariant Linked() && decoder.Ready() && |got| < want
        invariant old(chunk.rest) == taken + chunk.rest && decoder.sunk == old(decoder.sunk) + taken
        invariant decoder.hist == old(decoder.hist) + got
        invariant Lazy(|decoder.hist| + 1)
        decreases |chunk.rest|
      {
        var pres, out := decoder.PollReady(want - |got|);
        Assoc(old(decoder.hist), got, out);
        got := got + out;
        if want - |got| == 0 {
          return OK, got, taken;
        }
        var cres;
        ghost var next;
        cres, next := SinkNext();
        if cres == OK {
          Assoc(taken, next, chunk.rest);
          Assoc(old(decoder.sunk), taken, next);
          taken := taken + next;
        } else if |got| > 0 {
          return OK, got, taken;
        } else {
          return NO_DATA, got, taken;
        }
      }
    }

    /** Sink more data if available. The decoder always has room for the byte. */
    method SinkNext() returns (res: int, ghost taken: seq<byte>)
      requires Linked() && decoder.Resting() && decoder.state != StYieldBackref
      requires decoder.hist == decoder.decoded
      modifies chunk`offset, chunk`rest, decoder, decoder.buffers
      ensures Linked() && decoder.hist == old(decoder.hist)
      ensures old(chunk.rest) == taken + chunk.rest && decoder.sunk == old(decoder.sunk) + taken
      ensures res == if old(chunk.rest) == [] then NO_DATA else OK
      ensures res == NO_DATA ==> unchanged(decoder) && decoder.Resting() && chunk.rest == []
      ensures res == OK ==> |taken| == 1 && decoder.Ready() && Lazy(|decoder.hist| + 1)
    {
      taken := [];
      var b;
      res, b := chunk.Get();
      if res == OK {
        taken := [b];
        var sres, size := decoder.SinkByte(b);
        assert sres == SinkOk && size == 1;
      }
    }

    /** Inside unpack_size: `got` was read of a size that began as `from`. */
    ghost predicate Unpacking(from: SizeState, got: seq<byte>, more: bool)
      requires Linked()
      reads this, chunk, decoder
    {
      if more then ReadSize(from, got) == Partial(SizeAbs())
      else sizeValue >= 0 && ReadSize(from, got) == Complete(Signed(sizeValue, sizeSigned)) && Lazy(|decoder.hist|)
    }

    method UnpackNext(ghost from: SizeState, ghost before: seq<byte>)
      returns (res: int, more: bool, ghost got: seq<byte>, ghost taken: seq<byte>)
      requires Valid() && WfSize(from) && Unpacking(from, before, true)
      modifies this, chunk`offset, chunk`rest, decoder, decoder.buffers
      ensures Pulled(res, got, taken)
      ensures res in {OK, NO_DATA, PatchSpec.HEATSHRINK_HEADER, PatchSpec.CORRUPT_PATCH_OVERFLOW}
      ensures res == OK ==> Unpacking(from, before + got, more) && !sizeFirst
      ensures res == OK ==> sizeOffset == if old(sizeFirst) then 6 else old(sizeOffset) + 7
      ensures res == NO_DATA ==> Unpacking(from, before + got, true)
      ensures res == PatchSpec.CORRUPT_PATCH_OVERFLOW ==>
        var all := before + got;
        ReadSize(from, all) == Overflow && all != [] && ReadSize(from, all[..|all| - 1]).Partial?
    {
      var b;
      res, b, got, taken := UnpackByte();
      ExtendSize(from, before, b, got);
      more := b >= 128;
    }

    /** patch_reader_unpack_size: one signed size, resumable after any byte. */
    method UnpackSize() returns (res: int, size: int, ghost got: seq<byte>, ghost taken: seq<byte>)
      requires Valid()
      modifies this, chunk`offset, chunk`rest, decoder, decoder.buffers
      ensures Pulled(res, got, taken)
      ensures res in {OK, NO_DATA, PatchSpec.HEATSHRINK_HEADER, PatchSpec.CORRUPT_PATCH_OVERFLOW}
      ensures res == OK ==>
        ReadSize(old(SizeAbs()), got) == Complete(size) && SizeAbs() == First && Lazy(|decoder.hist|)
      ensures res == NO_DATA ==> ReadSize(old(SizeAbs()), got) == Partial(SizeAbs())
      ensures res == PatchSpec.CORRUPT_PATCH_OVERFLOW ==>
        ReadSize(old(SizeAbs()), got) == Overflow && got != [] && ReadSize(old(SizeAbs()), got[..|got| - 1]).Partial?
    {
      ghost var from, start := SizeAbs(), Now();
      got, taken, size := [], [], 0;
      var more := true;
      while more
        invariant Since(start, OK, got, taken) && Unpacking(from, got, more)
        decreases if !more then 0 else if sizeFirst then 50 else 40 - sizeOffset
      {
        res, more, got, taken := UnpackMore(start, from, got, taken);
        if res != OK {
          return;
        }
      }
      res := OK;
      FixSign();
      size := sizeValue;
    }

    /** Where the reader stands. */
    ghost function Now(): Standpoint
      requires Linked()
      reads this, chunk, decoder
    {
      Standpoint(chunk.rest, decoder.hist, Stream())
    }

    /** What has been pulled since the reader stood there. */
    ghost predicate Since(start: Standpoint, res: int, got: seq<byte>, taken: seq<byte>)
      reads this, chunk, decoder, decoder.buffers
    {
      && chunk.Valid() && start.rest == taken + chunk.rest && decoder.hist == start.hist + got
      && (if res == PatchSpec.HEATSHRINK_HEADER then
            start.stream == [] && |taken| == 1 && !PatchSpec.GoodWindow(taken[0]) && got == []
          else Valid() && Stream() == start.stream + taken)
      && (res == NO_DATA ==> chunk.rest == [] && decoder.hist == decoder.decoded)
    }

    /** One turn of the loop in unpack_size. */
    method UnpackMore(ghost start: Standpoint, ghost from: SizeState, ghost got: seq<byte>, ghost taken: seq<byte>)
      returns (res: int, more: bool, ghost got': seq<byte>, ghost taken': seq<byte>)
      requires WfSize(from) && Since(start, OK, got, taken) && Unpacking(from, got, true)
      modifies this, chunk`offset, chunk`rest, decoder, decoder.buffers
      ensures Since(start, res, got', taken')
      ensures res in {OK, NO_DATA, PatchSpec.HEATSHRINK_HEADER, PatchSpec.CORRUPT_PATCH_OVERFLOW}
      ensures res == OK ==> Unpacking(from, got', more) && !sizeFirst
      ensures res == OK ==> sizeOffset == if old(sizeFirst) then 6 else old(sizeOffset) + 7
      ensures res == NO_DATA ==> Unpacking(from, got', true)
      ensures res == PatchSpec.CORRUPT_PATCH_OVERFLOW ==>
        ReadSize(from, got') == Overflow && got' != [] && ReadSize(from, got'[..|got'| - 1]).Partial?
    {
      ghost var bytes, pulled;
      ghost var mid := Now();
      res, more, bytes, pulled := UnpackNext(from, got);
      Onward(start, mid, got, taken, bytes, pulled, chunk.rest);
      got', taken' := got + bytes, taken + pulled;
    }

    method FixSign()
      requires Valid() && sizeValue >= 0
      modifies this`sizeFirst, this`sizeValue
      ensures Valid() && SizeAbs() == First && sizeValue == Signed(old(sizeValue), sizeSigned)
      ensures Stream() == old(Stream())
    {
      sizeFirst := true;
      if sizeSigned {
        sizeValue := sizeValue * -1;
      }
    }

    /** One byte of a size: decompressed, then stored. */
    method UnpackByte() returns (res: int, b: byte, ghost got: seq<byte>, ghost taken: seq<byte>)
      requires Valid()
      modifies this, chunk`offset, chunk`rest, decoder, decoder.buffers
      ensures Pulled(res, got, taken)
      ensures res in {OK, NO_DATA, PatchSpec.HEATSHRINK_HEADER, PatchSpec.CORRUPT_PATCH_OVERFLOW}
      ensures res == NO_DATA ==> got == [] && SizeAbs() == old(SizeAbs())
      ensures res == OK ==>
        && got == [b] && Stored(SizeByte(old(SizeAbs()), b), b) && sizeValue >= 0 && Lazy(|decoder.hist|)
        && sizeOffset == (if old(sizeFirst) then 6 else old(sizeOffset) + 7)
      ensures res == PatchSpec.CORRUPT_PATCH_OVERFLOW ==> got == [b] && SizeByte(old(SizeAbs()), b) == Overflow
    {
      b := 0;
      var bytes;
      res, bytes, taken := Decompress(1);
      got := bytes;
      if res == OK {
        b := bytes[0];
        var overflow := StoreSizeByte(b);
        if overflow {
          res := PatchSpec.CORRUPT_PATCH_OVERFLOW;
        }
      }
    }

    /** The switch of unpack_size, after a byte was decompressed. */
    method StoreSizeByte(b: byte) returns (overflow: bool)
      requires Valid()
      modifies this`sizeFirst, this`sizeValue, this`sizeOffset, this`sizeSigned
      ensures Valid() && Stream() == old(Stream())
      ensures overflow ==> SizeByte(old(SizeAbs()), b) == Overflow && SizeAbs() == old(SizeAbs())
      ensures !overflow ==> Stored(SizeByte(old(SizeAbs()), b), b) && sizeValue >= 0
      ensures !overflow ==> sizeOffset == if old(sizeFirst) then 6 else old(sizeOffset) + 7
    {
      overflow := false;
      if sizeFirst {
        StoreFirst(b);
      } else if IsOverflow(sizeOffset) {
        overflow := true;
      } else {
        StoreNext(b);
      }
    }

    /** The fields hold the value read so far; the top bit says whether it is complete. */
    ghost predicate Stored(r: SizeResult, b: byte)
      requires Linked()
      reads this, chunk
    {
      !sizeFirst && r == if b >= 128 then Partial(SizeAbs()) else Complete(Signed(sizeValue, sizeSigned))
    }

    method StoreFirst(b: byte)
      requires Linked() && sizeFirst
      modifies this`sizeFirst, this`sizeValue, this`sizeOffset, this`sizeSigned
      ensures Linked() && Stored(SizeByte(First, b), b) && sizeOffset == 6
    {
      Offsets();
      sizeSigned, sizeValue, sizeOffset, sizeFirst := b / 64 % 2 == 1, b % 64, 6, false;
    }

    method StoreNext(b: byte)
      requires Linked() && !sizeFirst && !IsOverflow(sizeOffset)
      modifies this`sizeValue, this`sizeOffset
      ensures Linked() && Stored(SizeByte(old(SizeAbs()), b), b) && sizeOffset == old(sizeOffset) + 7
    {
      ShiftBound(sizeValue, sizeOffset, b);
      var value := OrShifted(sizeValue, b, sizeOffset);
      sizeValue, sizeOffset := value, sizeOffset + 7;
    }

    /** The stream taken decodes to what the decoder knows, of which hist was delivered. */
    lemma StreamGives()
      requires Valid()
      ensures PatchRuns.Gives(Stream(), decoder.decoded) && decoder.hist <= decoder.decoded
    {
      decoder.DecodedIsDecode();
      decoder.OutputIsDecoded();
      assert ([0x44] + decoder.sunk)[1..] == decoder.sunk;
    }

    /** A request filled with n bytes in all has taken the fewest compressed bytes that
        decode to n. */
    lemma FewestTaken(k: nat)
      requires Valid() && Lazy(|decoder.hist|) && k < |decoder.sunk|
      ensures |Decode(STATIC_CONFIG, decoder.sunk[..k])| < |decoder.hist| <= |Decode(STATIC_CONFIG, decoder.sunk)|
    {
      decoder.DecodedIsDecode();
      decoder.OutputIsDecoded();
      var all := decoder.sunk[..|decoder.sunk| - 1];
      assert all == decoder.sunk[..k] + all[k..];
      DecodeMonotone(STATIC_CONFIG, decoder.sunk[..k], all[k..]);
    }

    lemma LazyNeeded(n: nat)
      requires Valid() && Lazy(n) && n >= 1
      ensures PatchRuns.Needed(Stream(), n)
    {
      decoder.DecodedIsDecode();
      var stream := [0x44] + decoder.sunk;
      if decoder.sunk != [] {
        assert stream[..|stream| - 1][1..] == decoder.sunk[..|decoder.sunk| - 1];
      } else {
        assert stream[..|stream| - 1] == [];
      }
    }

    /** patch_reader_heatshrink_destroy: output left over is an error. */
    method Destroy() returns (res: int)
      ensures decoder.Resting() && decoder.config == STATIC_CONFIG ==>
        res == if decoder.hist == decoder.decoded then OK else PatchSpec.CORRUPT_PATCH
    {
      var fres := decoder.FinishResting();
      if fres == FinishDone {
        return OK;
      } else {
        return PatchSpec.CORRUPT_PATCH;
      }
    }

    function Image(): ReaderImage
      reads this, decoder, decoder.buffers
    {
      ReaderImage(sizeFirst, sizeValue, sizeOffset, sizeSigned, windowSz2, lookaheadSz2, decoder.Image())
    }

    /** patch_reader_restore: the struct is copied, but keeps its own chunk. */
    method Restore(image: ReaderImage, ghost original: PatchReader)
      requires Linked() && image == original.Image() && original.Valid()
      requires this != original && decoder != original.decoder && decoder.buffers != original.decoder.buffers
      requires decoder.buffers.Length == original.decoder.buffers.Length
      modifies this, decoder, decoder.buffers
      ensures Valid() && Image() == image
      ensures Stream() == original.Stream() && SizeAbs() == original.SizeAbs()
      ensures decoder.hist == original.decoder.hist && decoder.decoded == original.decoder.decoded
    {
      sizeFirst, sizeValue := image.sizeFirst, image.sizeValue;
      sizeOffset, sizeSigned := image.sizeOffset, image.sizeSigned;
      windowSz2, lookaheadSz2 := image.windowSz2, image.lookaheadSz2;
      decoder.Restore(image.decoder, original.decoder);
    }
  }
}
