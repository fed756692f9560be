/** Which writes a patch makes. A data block is written in slices of at most 128
    bytes. A slice ends early where its block ends, and where a chunk of the patch
    ends with less decompressed than the slice could take. */
module PatchSlices {
  import opened Bytes
  import opened HeatshrinkSpec
  import opened Varint
  import opened PatchSpec
  import opened PatchFacts
  import opened FlashSpec

  /** A patch, and where the chunks end in which it is offered. */
  datatype Feed = Feed(whole: seq<byte>, ends: set<nat>)

  /** The piece of a patch read from the flash at a time. */
  const CHUNK_SIZE: nat := 512

  function ChunkedFeed(patch: seq<byte>): Feed {
    Feed(patch, set i | 0 < i <= |patch| && i % CHUNK_SIZE == 0)
  }

  /** The compressed data `q` of a patch, which begins at `at`. */
  datatype Cuts = Cuts(q: seq<byte>, at: nat, ends: set<nat>)

  function Decodes(c: Cuts, k: nat): nat
    requires k <= |c.q|
  {
    |Decode(STATIC_CONFIG, c.q[..k])|
  }

  /** A chunk ends with e bytes decompressed, and had bytes left when the s-th was. */
  predicate ChunkCut(c: Cuts, s: nat, e: nat) {
    exists k :: 0 < k <= |c.q| && k + c.at in c.ends && Decodes(c, k) == e && Decodes(c, k - 1) >= s
  }

  /** A slice that begins behind s decompressed bytes cannot go on behind e. */
  predicate Cut(c: Cuts, s: nat, e: nat) {
    e == Decodes(c, |c.q|) || ChunkCut(c, s, e)
  }

  /** A slice of the block is over with n bytes. */
  predicate Closes(c: Cuts, m: Machine, n: nat)
    requires m.Running?
  {
    n == SLICE || n == m.chunkSize || Cut(c, m.used, m.used + n)
  }

  /** The machine at the begin of a slice, the bytes of the slice so far, and the
      writes made before it. */
  datatype Cutter = Cutter(m: Machine, raw: seq<byte>, writes: seq<seq<byte>>)

  predicate WfCutter(k: Cutter) {
    Wf(k.m) && (k.raw != [] ==> k.m.Running? && IsData(k.m.state) && |k.raw| < k.m.chunkSize)
  }

  /** A slice is read, patched and written: nothing is written if the read fails. */
  function CloseSlice(h: Host, m: Machine, raw: seq<byte>, writes: seq<seq<byte>>): (r: Cutter)
    requires Wf(m) && m.Running? && IsData(m.state) && |raw| <= m.chunkSize
    ensures WfCutter(r) && r.raw == []
  {
    if m.state == DiffData && !ReadOk(h, m.fromOffset, |raw|) then Cutter(BrokenIo(), [], writes)
    else
      var data := Slice(h, m, raw);
      Cutter(if WriteOk(h, |m.out|, |raw|) then Advanced(m, |raw|, data) else BrokenIo(), [], writes + [data])
  }

  /** One decompressed byte. */
  function CutByte(h: Host, c: Cuts, k: Cutter, b: byte): (r: Cutter)
    requires WfCutter(k)
    ensures WfCutter(r)
  {
    if Over(k.m) then k
    else if !IsData(k.m.state) then k.(m := ConsumeSizeByte(h, k.m, b))
    else
      var raw := k.raw + [b];
      if Closes(c, k.m, |raw|) then CloseSlice(h, k.m, raw, k.writes) else k.(raw := raw)
  }

  function CutAll(h: Host, c: Cuts, k: Cutter, bs: seq<byte>): (r: Cutter)
    requires WfCutter(k)
    ensures WfCutter(r)
  {
    if bs == [] then k else CutByte(h, c, CutAll(h, c, k, bs[..|bs| - 1]), bs[|bs| - 1])
  }

  function CutStart(toSize: nat): (k: Cutter)
    ensures WfCutter(k)
  {
    Cutter(Started(toSize), [], [])
  }

  function CutsFrom(f: Feed, at: nat): Cuts {
    Cuts(if at <= |f.whole| then f.whole[at..] else [], at, f.ends)
  }

  /** Every write of a run over the patch, also of one that fails. */
  function WriteList(h: Host, f: Feed): seq<seq<byte>> {
    match Header(f.whole)
    case HeaderError(_) => []
    case HeaderOk(toSize, n) =>
      if n >= |f.whole| || !GoodWindow(f.whole[n]) then []
      else
        var c := CutsFrom(f, n + 1);
        CutAll(h, c, CutStart(toSize), Decode(STATIC_CONFIG, c.q)).writes
  }

  // -- the fold ------------------------------------------------------------------

  lemma CutSnoc(h: Host, c: Cuts, k: Cutter, bs: seq<byte>, b: byte)
    requires WfCutter(k)
    ensures CutAll(h, c, k, bs + [b]) == CutByte(h, c, CutAll(h, c, k, bs), b)
  {
    assert (bs + [b])[..|bs + [b]| - 1] == bs;
  }

  lemma {:induction false} CutConcat(h: Host, c: Cuts, k: Cutter, a: seq<byte>, b: seq<byte>)
    requires WfCutter(k)
    ensures CutAll(h, c, k, a + b) == CutAll(h, c, CutAll(h, c, k, a), b)
  {
    if b == [] {
      assert a + b == a;
    } else {
      CutConcat(h, c, k, a, b[..|b| - 1]);
      LastOfConcat(a, b);
    }
  }

  lemma {:induction false} CutOver(h: Host, c: Cuts, k: Cutter, bs: seq<byte>)
    requires WfCutter(k) && Over(k.m)
    ensures CutAll(h, c, k, bs) == k
  {
    if bs != [] {
      CutOver(h, c, k, bs[..|bs| - 1]);
    }
  }

  /** Cutting into slices does not change what the bytes mean. */
  lemma {:induction false} CutConsume(h: Host, c: Cuts, k: Cutter, bs: seq<byte>)
    requires WfCutter(k) && k.raw == []
    ensures var r := CutAll(h, c, k, bs); ConsumeAll(h, k.m, bs) == ConsumeAll(h, r.m, r.raw)
  {
    if bs != [] {
      var init, last := bs[..|bs| - 1], bs[|bs| - 1];
      CutConsume(h, c, k, init);
      CutConsumeByte(h, c, CutAll(h, c, k, init), last, ConsumeAll(h, k.m, init));
    }
  }

  lemma CutConsumeByte(h: Host, c: Cuts, k: Cutter, b: byte, m: Machine)
    requires WfCutter(k) && Wf(m) && m == ConsumeAll(h, k.m, k.raw)
    ensures var r := CutByte(h, c, k, b); Consume(h, m, b) == ConsumeAll(h, r.m, r.raw)
  {
    ConsumeSnoc(h, k.m, k.raw, b);
    if !Over(k.m) && IsData(k.m.state) {
      ConsumeSlice(h, k.m, k.raw + [b]);
    }
  }

  /** The writes before a slice are the machine's output. */
  lemma {:induction false} CutJoin(h: Host, c: Cuts, k: Cutter, bs: seq<byte>)
    requires WfCutter(k) && (k.m.Running? ==> k.m.out == Join(k.writes))
    ensures var r := CutAll(h, c, k, bs); r.m.Running? ==> r.m.out == Join(r.writes)
  {
    if bs != [] {
      var init, last := bs[..|bs| - 1], bs[|bs| - 1];
      CutJoin(h, c, k, init);
      CutJoinByte(h, c, CutAll(h, c, k, init), last);
    }
  }

  lemma CutJoinByte(h: Host, c: Cuts, k: Cutter, b: byte)
    requires WfCutter(k) && (k.m.Running? ==> k.m.out == Join(k.writes))
    ensures var r := CutByte(h, c, k, b); r.m.Running? ==> r.m.out == Join(r.writes)
  {
    if !Over(k.m) {
      if IsData(k.m.state) {
        if Closes(c, k.m, |k.raw| + 1) {
          CloseJoin(h, k.m, k.raw + [b], k.writes);
        }
      } else {
        SizeByteBound(k.m.size, b);
      }
    }
  }

  lemma CloseJoin(h: Host, m: Machine, raw: seq<byte>, writes: seq<seq<byte>>)
    requires Wf(m) && m.Running? && IsData(m.state) && |raw| <= m.chunkSize && m.out == Join(writes)
    ensures var r := CloseSlice(h, m, raw, writes); r.m.Running? ==> r.m.out == Join(r.writes)
  {
    var r := CloseSlice(h, m, raw, writes);
    if r.m.Running? {
      assert r.writes[..|r.writes| - 1] == writes;
    }
  }

  lemma StillOpen(h: Host, k: Cutter)
    requires WfCutter(k) && k.raw != []
    ensures var m := ConsumeAll(h, k.m, k.raw); m.Running? ==> m.state != Done
  {
    ConsumeSlice(h, k.m, k.raw);
  }

  /** The writes of a success are its output. */
  lemma JoinWrites(h: Host, f: Feed)
    requires Apply(h, f.whole).result > 0
    ensures Join(WriteList(h, f)) == Apply(h, f.whole).out
  {
    HeaderErrors(f.whole);
    var toSize, n := Header(f.whole).toSize, Header(f.whole).length;
    var c, stream := CutsFrom(f, n + 1), f.whole[n..];
    if toSize > 0 && stream != [] && GoodWindow(stream[0]) {
      assert stream[1..] == c.q;
      var bs := Decode(STATIC_CONFIG, c.q);
      CutConsume(h, c, CutStart(toSize), bs);
      CutJoin(h, c, CutStart(toSize), bs);
      var r := CutAll(h, c, CutStart(toSize), bs);
      if r.raw != [] {
        StillOpen(h, r);
      }
      AllErrors(h, Started(toSize), bs);
    }
  }

  /** Slices, all but the last of which fit the target. */
  predicate InRoom(h: Host, ws: seq<seq<byte>>) {
    AreSlices(ws) && (ws != [] ==> |Join(ws[..|ws| - 1])| < h.room)
  }

  predicate Orderly(h: Host, k: Cutter) {
    && |k.raw| < SLICE && InRoom(h, k.writes)
    && (k.m.Running? ==> k.m.out == Join(k.writes) && |k.m.out| < h.room)
  }

  lemma OrderlyByte(h: Host, c: Cuts, k: Cutter, b: byte)
    requires WfCutter(k) && Orderly(h, k)
    ensures Orderly(h, CutByte(h, c, k, b))
  {
    if !Over(k.m) {
      if IsData(k.m.state) {
        if Closes(c, k.m, |k.raw| + 1) {
          OrderlySlice(h, k.m, k.raw + [b], k.writes);
        }
      } else {
        SizeByteBound(k.m.size, b);
      }
    }
  }

  lemma OrderlySlice(h: Host, m: Machine, raw: seq<byte>, writes: seq<seq<byte>>)
    requires Wf(m) && m.Running? && IsData(m.state) && 1 <= |raw| <= m.chunkSize && |raw| <= SLICE
    requires InRoom(h, writes) && m.out == Join(writes) && |m.out| < h.room
    ensures Orderly(h, CloseSlice(h, m, raw, writes))
  {
    if m.state != DiffData || ReadOk(h, m.fromOffset, |raw|) {
      OneMore(h, writes, Slice(h, m, raw));
      OrderlyNext(h, m, |raw|, Slice(h, m, raw), writes);
    }
  }

  lemma OrderlyNext(h: Host, m: Machine, n: nat, data: seq<byte>, writes: seq<seq<byte>>)
    requires Wf(m) && m.Running? && IsData(m.state) && |data| == n <= m.chunkSize
    requires InRoom(h, writes + [data]) && Join(writes + [data]) == m.out + data
    ensures Orderly(h, Cutter(if WriteOk(h, |m.out|, n) then Advanced(m, n, data) else BrokenIo(), [], writes + [data]))
  {
  }

  lemma OneMore(h: Host, writes: seq<seq<byte>>, data: seq<byte>)
    requires InRoom(h, writes) && 1 <= |data| <= SLICE && |Join(writes)| < h.room
    ensures InRoom(h, writes + [data]) && Join(writes + [data]) == Join(writes) + data
  {
    assert (writes + [data])[..|writes + [data]| - 1] == writes;
  }

  lemma {:induction false} OrderlyAll(h: Host, c: Cuts, k: Cutter, bs: seq<byte>)
    requires WfCutter(k) && Orderly(h, k)
    ensures Orderly(h, CutAll(h, c, k, bs))
  {
    if bs != [] {
      OrderlyAll(h, c, k, bs[..|bs| - 1]);
      OrderlyByte(h, c, CutAll(h, c, k, bs[..|bs| - 1]), bs[|bs| - 1]);
    }
  }

  /** Every write has at most 128 bytes, and only the last one may be one too many for
      the target. */
  lemma WritesInRoom(h: Host, f: Feed)
    requires h.room > 0
    ensures InRoom(h, WriteList(h, f))
  {
    match Header(f.whole)
    case HeaderError(_) =>
    case HeaderOk(toSize, n) =>
      if n < |f.whole| && GoodWindow(f.whole[n]) {
        var c := CutsFrom(f, n + 1);
        OrderlyAll(h, c, CutStart(toSize), Decode(STATIC_CONFIG, c.q));
      }
  }

  /** No slice of the block is over before n bytes. */
  predicate Whole(c: Cuts, m: Machine, n: nat)
    requires m.Running?
  {
    forall j :: 0 < j < n ==> !Closes(c, m, j)
  }

  lemma {:induction false} CutRaw(h: Host, c: Cuts, m: Machine, raw: seq<byte>, writes: seq<seq<byte>>)
    requires Wf(m) && m.Running? && IsData(m.state) && |raw| < m.chunkSize && Whole(c, m, |raw| + 1)
    ensures CutAll(h, c, Cutter(m, [], writes), raw) == Cutter(m, raw, writes)
  {
    if raw != [] {
      var init, last := raw[..|raw| - 1], raw[|raw| - 1];
      CutRaw(h, c, m, init, writes);
      assert raw == init + [last];
      assert !Closes(c, m, |raw|);
      CutSnoc(h, c, Cutter(m, [], writes), init, last);
    }
  }

  lemma CutSlice(h: Host, c: Cuts, m: Machine, raw: seq<byte>, writes: seq<seq<byte>>)
    requires Wf(m) && m.Running? && IsData(m.state) && 1 <= |raw| <= m.chunkSize
    requires Whole(c, m, |raw|) && Closes(c, m, |raw|)
    ensures CutAll(h, c, Cutter(m, [], writes), raw) == CloseSlice(h, m, raw, writes)
  {
    var init, last, k := raw[..|raw| - 1], raw[|raw| - 1], Cutter(m, [], writes);
    assert raw == init + [last];
    CutRaw(h, c, m, init, writes);
    CutSnoc(h, c, k, init, last);
    CutLast(h, c, m, init, last, raw, writes);
  }

  lemma CutLast(h: Host, c: Cuts, m: Machine, init: seq<byte>, last: byte, raw: seq<byte>, writes: seq<seq<byte>>)
    requires Wf(m) && m.Running? && IsData(m.state) && |raw| <= m.chunkSize && raw == init + [last]
    requires Closes(c, m, |raw|)
    ensures CutByte(h, c, Cutter(m, init, writes), last) == CloseSlice(h, m, raw, writes)
  {
  }

  /** The bytes of a size field, or of its begin. */
  predicate SizeField(s: SizeState, bs: seq<byte>) {
    bs != [] ==> ReadSize(s, bs[..|bs| - 1]).Partial?
  }

  lemma {:induction false} CutSize(h: Host, c: Cuts, m: Machine, bs: seq<byte>, writes: seq<seq<byte>>)
    requires Wf(m) && m.Running? && IsSize(m.state) && SizeField(m.size, bs)
    ensures CutAll(h, c, Cutter(m, [], writes), bs) == Cutter(ConsumeAll(h, m, bs), [], writes)
  {
    if bs != [] {
      var init, last := bs[..|bs| - 1], bs[|bs| - 1];
      CutSize(h, c, m, init, writes);
      ConsumeSize(h, m, init, ReadSize(m.size, init), m.used + |init|);
    }
  }

  /** `data` is the chunk behind p, or nothing, and `tail` comes in later chunks. */
  predicate Offers(f: Feed, p: seq<byte>, data: seq<byte>, tail: seq<byte>) {
    && f.whole == p + data + tail && NoEndInside(f.ends, |p|, |p| + |data|)
    && (tail == [] || data == [] || |p| + |data| in f.ends)
  }

  lemma OffersRest(f: Feed, p: seq<byte>, done: seq<byte>, rest: seq<byte>, tail: seq<byte>)
    requires Offers(f, p, done + rest, tail) && rest != []
    ensures Offers(f, p + done, rest, tail)
  {
    assert p + (done + rest) + tail == p + done + rest + tail;
  }

  /** A piece of 512 bytes, or the last piece. */
  lemma ChunkedOffers(p: seq<byte>, data: seq<byte>, tail: seq<byte>)
    requires |p| % CHUNK_SIZE == 0 && |data| <= CHUNK_SIZE && (|data| == CHUNK_SIZE || tail == [])
    ensures Offers(ChunkedFeed(p + data + tail), p, data, tail)
  {
  }

  // -- where a request ends --------------------------------------------------------

  lemma DecodesMore(c: Cuts, a: nat, b: nat)
    requires a <= b <= |c.q|
    ensures Decodes(c, a) <= Decodes(c, b)
  {
    assert c.q[..b] == c.q[..a] + c.q[a..b];
    DecodeMonotone(STATIC_CONFIG, c.q[..a], c.q[a..b]);
  }

  /** No chunk ends between a and b. */
  predicate NoEndInside(ends: set<nat>, a: nat, b: nat) {
    forall e :: e in ends ==> e <= a || b <= e
  }

  /** A request made when `from` compressed bytes had been taken, in a chunk that ends
      at `to`, and answered with n bytes, is a slice. */
  lemma RequestIsSlice(c: Cuts, m: Machine, from: nat, to: nat, n: nat)
    requires m.Running? && 1 <= n <= m.chunkSize && n <= SLICE
    requires from <= to <= |c.q| && NoEndInside(c.ends, from + c.at, to + c.at)
    requires m.used + n <= Decodes(c, to)
    // what had been taken was needed
    requires m.used == Decodes(c, from) || (from > 0 && Decodes(c, from - 1) < m.used)
    // the answer is complete, or all there is
    requires n == SLICE || n == m.chunkSize || m.used + n == Decodes(c, to)
    requires to == |c.q| || (from < to && to + c.at in c.ends && m.used <= Decodes(c, from))
    ensures Whole(c, m, n) && Closes(c, m, n)
  {
    forall j | 0 < j < n ensures !Closes(c, m, j) {
      NotCut(c, m.used, from, to, m.used + j);
    }
    if n != SLICE && n != m.chunkSize && to != |c.q| {
      DecodesMore(c, from, to - 1);
      assert ChunkCut(c, m.used, m.used + n);
    }
  }

  lemma NotCut(c: Cuts, s: nat, from: nat, to: nat, e: nat)
    requires from <= to <= |c.q| && NoEndInside(c.ends, from + c.at, to + c.at)
    requires s < e < Decodes(c, to)
    requires s == Decodes(c, from) || (from > 0 && Decodes(c, from - 1) < s)
    ensures !Cut(c, s, e)
  {
    DecodesMore(c, to, |c.q|);
    forall k | 0 < k <= |c.q| && k + c.at in c.ends && Decodes(c, k) == e ensures Decodes(c, k - 1) < s {
      NotCutAt(c, s, from, to, e, k);
    }
  }

  lemma NotCutAt(c: Cuts, s: nat, from: nat, to: nat, e: nat, k: nat)
    requires from <= to <= |c.q| && 0 < k <= |c.q| && (k <= from || to <= k)
    requires s < e < Decodes(c, to) && Decodes(c, k) == e
    requires s == Decodes(c, from) || (from > 0 && Decodes(c, from - 1) < s)
    ensures Decodes(c, k - 1) < s
  {
    if k < from {
      DecodesMore(c, k, from - 1);
      DecodesMore(c, from - 1, from);
    } else if k > from {
      DecodesMore(c, to, k);
    }
  }

  // -- sealed facts ------------------------------------------------------------------

  predicate OpenCut(u: bool) {
    true
  }

  /** The bytes decompressed so far leave no slice open, with these writes made. */
  ghost predicate CutsTo(h: Host, c: Cuts, toSize: nat, hist: seq<byte>, m: Machine, writes: seq<seq<byte>>) {
    forall u {:trigger OpenCut(u)} :: OpenCut(u) ==> CutAll(h, c, CutStart(toSize), hist) == Cutter(m, [], writes)
  }

  /** got belongs to a size field. */
  ghost predicate SizeBytes(m: Machine, got: seq<byte>) {
    forall u {:trigger OpenCut(u)} :: OpenCut(u) ==>
      m.Running? && Wf(m) && IsSize(m.state) && SizeField(m.size, got)
  }

  /** got is a slice, and was handled as one. */
  ghost predicate SliceDone(h: Host, m: Machine, writes: seq<seq<byte>>, got: seq<byte>, after: Machine,
                            writes': seq<seq<byte>>) {
    forall u {:trigger OpenCut(u)} :: OpenCut(u) ==>
      && m.Running? && Wf(m) && IsData(m.state) && 1 <= |got| <= m.chunkSize && |got| <= SLICE
      && CloseSlice(h, m, got, writes) == Cutter(after, [], writes')
  }

  /** n bytes of the block are a slice. */
  ghost predicate IsSlice(c: Cuts, m: Machine, n: nat) {
    forall u {:trigger OpenCut(u)} :: OpenCut(u) ==> m.Running? && Whole(c, m, n) && Closes(c, m, n)
  }

  /** What a step that took got has written. */
  ghost predicate Wrote(h: Host, m: Machine, writes: seq<seq<byte>>, got: seq<byte>, after: Machine,
                        writes': seq<seq<byte>>) {
    if got == [] then writes' == writes
    else if m.Running? && IsData(m.state) then SliceDone(h, m, writes, got, after, writes')
    else SizeBytes(m, got) && writes' == writes
  }
}
