/** Runs of the patch machine cut at any place: what a state reached so far says
    about the meaning of the whole patch. */
module PatchRuns {
  import opened Bytes
  import opened HeatshrinkSpec
  import opened Varint
  import opened PatchSpec
  import opened PatchFacts
  import opened PatchSlices
  import opened FlashSpec

  // Sealed facts, of the form `forall u :: Open(u) ==> P` for P: users carry them
  // along, and only a proof that mentions the seal looks inside.

  predicate OpenRun(u: bool) {
    true
  }

  predicate OpenSize(u: bool) {
    true
  }

  predicate OpenHeader(u: bool) {
    true
  }

  /** The decompressed bytes take the machine from one state to another. */
  ghost predicate Reaches(h: Host, before: Machine, got: seq<byte>, after: Machine)
    requires Wf(before)
  {
    forall u {:trigger OpenRun(u)} :: OpenRun(u) ==> ConsumeAll(h, before, got) == after
  }

  lemma ReachesNone(h: Host, m: Machine)
    requires Wf(m)
    ensures Reaches(h, m, [], m)
  {
  }

  lemma ReachesConcat(h: Host, m: Machine, a: seq<byte>, m1: Machine, b: seq<byte>, m2: Machine)
    requires Wf(m) && Wf(m1) && Reaches(h, m, a, m1) && Reaches(h, m1, b, m2)
    ensures Reaches(h, m, a + b, m2)
  {
    assert OpenRun(true);
    ConsumeConcat(h, m, a, b);
  }

  /** r is what the size v makes of the machine. */
  ghost predicate SizedTo(h: Host, m: Machine, v: int, r: Machine)
    requires m.Running? && IsSize(m.state) && m.chunkSize == 0 && WfSize(m.size)
  {
    Wf(r) && forall u {:trigger OpenSize(u)} :: OpenSize(u) ==> r == Sized(h, m, v)
  }

  lemma FieldRead(h: Host, before: Machine, got: seq<byte>, now: Machine, r: SizeResult) returns (after: Machine)
    requires Wf(before) && before.Running? && IsSize(before.state) && now.Running?
    requires now == before.(size := now.size, used := before.used + |got|)
    requires r == ReadSize(before.size, got)
    requires got != [] ==> ReadSize(before.size, got[..|got| - 1]).Partial?
    ensures Wf(after) && Reaches(h, before, got, after)
    ensures r == Partial(now.size) ==> after == now
    ensures r.Complete? && now.size == First ==>
      got != [] && -0x800_0000 < r.size < 0x800_0000 && SizedTo(h, now, r.size, after)
    ensures r == Overflow ==> after == Broken(CORRUPT_PATCH_OVERFLOW, before.out)
  {
    ConsumeSize(h, before, got, r, before.used + |got|);
    after := ConsumeAll(h, before, got);
  }

  lemma SizedDfpatch(h: Host, m: Machine, v: int, r: Machine)
    requires m.Running? && m.state == DfpatchSize && m.chunkSize == 0 && WfSize(m.size) && SizedTo(h, m, v, r)
    ensures r == if v > 0 then Broken(NOT_IMPLEMENTED, m.out) else m.(state := DiffSize)
  {
    assert OpenSize(true);
  }

  function Block(m: Machine, n: nat): Machine
    requires m.Running? && WfSize(m.size)
  {
    Normal(m.(state := if m.state == DiffSize then DiffData else ExtraData, chunkSize := n))
  }

  lemma SizedBlock(h: Host, m: Machine, v: int, r: Machine, n: nat, fits: bool)
    requires m.Running? && (m.state == DiffSize || m.state == ExtraSize) && m.chunkSize == 0 && WfSize(m.size)
    requires SizedTo(h, m, v, r) && n == v % SIZE_MOD && fits == ((m.toOffset + n) % SIZE_MOD <= m.toSize)
    ensures r == if fits then Block(m, n) else Broken(CORRUPT_PATCH, m.out)
  {
    assert OpenSize(true);
  }

  lemma SizedSeek(h: Host, m: Machine, v: int, r: Machine)
    requires m.Running? && m.state == Adjustment && m.chunkSize == 0 && WfSize(m.size) && SizedTo(h, m, v, r)
    ensures r == if SeekOk(h, m.fromOffset + v)
                 then m.(fromOffset := m.fromOffset + v, state := if m.toOffset == m.toSize then Done else DiffSize)
                 else BrokenIo()
  {
    assert OpenSize(true);
  }

  lemma SliceStep(h: Host, m: Machine, got: seq<byte>, data: seq<byte>, readOk: bool, writeOk: bool, after: Machine)
    requires Wf(m) && m.Running? && IsData(m.state) && 1 <= |got| <= m.chunkSize
    requires readOk <==> m.state == ExtraData || ReadOk(h, m.fromOffset, |got|)
    requires readOk ==> data == Slice(h, m, got)
    requires writeOk <==> WriteOk(h, |m.out|, |got|)
    requires after == Advanced(m, |got|, data)
    ensures Reaches(h, m, got, if readOk && writeOk then after else BrokenIo())
  {
    ConsumeSlice(h, m, got);
  }

  lemma SliceIsDone(h: Host, m: Machine, got: seq<byte>, data: seq<byte>, readOk: bool, writeOk: bool, after: Machine,
                    writes: seq<seq<byte>>, writes': seq<seq<byte>>)
    requires Wf(m) && m.Running? && IsData(m.state) && 1 <= |got| <= m.chunkSize && |got| <= SLICE
    requires readOk <==> m.state == ExtraData || ReadOk(h, m.fromOffset, |got|)
    requires readOk ==> data == Slice(h, m, got)
    requires writeOk <==> WriteOk(h, |m.out|, |got|)
    requires after == Advanced(m, |got|, data)
    requires writes' == if readOk then writes + [data] else writes
    ensures SliceDone(h, m, writes, got, if readOk && writeOk then after else BrokenIo(), writes')
  {
  }

  /** The fields after a slice. */
  lemma AdvancedFields(m: Machine, n: nat, data: seq<byte>, to: nat, left: nat, from: int, out: seq<byte>)
    requires m.Running? && IsData(m.state) && WfSize(m.size) && n <= m.chunkSize
    requires to == (m.toOffset + n) % SIZE_MOD && left == m.chunkSize - n && out == m.out + data
    requires from == if m.state == DiffData then m.fromOffset + n else m.fromOffset
    ensures Advanced(m, n, data) == Normal(Running(m.state, m.size, m.toSize, to, left, from, m.used + n, out))
  {
  }

  // -- from a state to the verdict ---------------------------------------------------

  /** The stream taken so far decodes to these bytes. */
  predicate Gives(stream: seq<byte>, decoded: seq<byte>) {
    && (stream == [] ==> decoded == [])
    && (stream != [] ==> GoodWindow(stream[0]) && decoded == Decode(STATIC_CONFIG, stream[1..]))
  }

  /** The last byte of the stream was needed to get n decompressed bytes. */
  predicate Needed(stream: seq<byte>, n: nat) {
    stream != [] ==> !Enough(stream[..|stream| - 1], n)
  }

  /** A machine in mid-run: `hist` of the decoded bytes have been consumed. */
  ghost predicate Midway(h: Host, toSize: nat, stream: seq<byte>, decoded: seq<byte>, hist: seq<byte>, m: Machine) {
    && Gives(stream, decoded) && hist <= decoded
    && Wf(m) && Reaches(h, Started(toSize), hist, m)
  }

  lemma RunMidway(h: Host, toSize: nat, stream: seq<byte>, decoded: seq<byte>, hist: seq<byte>, m: Machine)
    requires Midway(h, toSize, stream, decoded, hist, m) && (Over(m) || hist == decoded)
    ensures RunStream(h, Started(toSize), stream) == m
  {
    assert OpenRun(true);
    var m0 := Started(toSize);
    if Over(m0) {
      ConsumeOver(h, m0, hist);
    } else {
      var rest := decoded[|hist|..];
      assert decoded == hist + rest;
      ConsumeConcat(h, m0, hist, rest);
      if Over(m) {
        ConsumeOver(h, m, rest);
      }
    }
  }

  /** These bytes are a whole header. Sealed. */
  ghost predicate IsHeader(header: seq<byte>, toSize: nat) {
    forall u {:trigger OpenHeader(u)} :: OpenHeader(u) ==> Header(header) == HeaderOk(toSize, |header|)
  }

  /** A header is complete without the bytes after it. */
  lemma HeaderCut(a: seq<byte>, b: seq<byte>, toSize: nat)
    requires Header(a + b) == HeaderOk(toSize, |a|)
    ensures IsHeader(a, toSize)
  {
    var p := a + b;
    if p[1] >= 128 {
      HeaderTailCut(a, b, 2, p[1] % 64, 6, toSize);
    }
    assert p[0] == a[0] && p[1] == a[1];
  }

  lemma {:induction false} HeaderTailCut(a: seq<byte>, b: seq<byte>, i: nat, value: nat, offset: nat, toSize: nat)
    requires HeaderTail(a + b, i, value, offset) == HeaderOk(toSize, |a|)
    ensures i < |a| && HeaderTail(a, i, value, offset) == HeaderOk(toSize, |a|)
    decreases |a + b| - i
  {
    var c := (a + b)[i];
    if c >= 128 {
      HeaderTailCut(a, b, i + 1, value + c % 128 * Pow2(offset), offset + 7, toSize);
    }
    assert c == a[i];
  }

  lemma ApplyHeader(h: Host, header: seq<byte>, toSize: nat, stream: seq<byte>)
    requires IsHeader(header, toSize)
    ensures Apply(h, header + stream) == Verdict(h, Started(toSize), stream)
  {
    assert OpenHeader(true);
    HeaderPrefix(header, stream);
    assert (header + stream)[|header|..] == stream;
  }

  /** An error is the status of the whole patch, however it goes on. */
  lemma StoppedBroken(h: Host, header: seq<byte>, toSize: nat, stream: seq<byte>, decoded: seq<byte>, hist: seq<byte>,
                      m: Machine, tail: seq<byte>)
    requires IsHeader(header, toSize)
    requires Midway(h, toSize, stream, decoded, hist, m) && m.Broken?
    ensures Apply(h, header + stream + tail) == Outcome(m.error, m.written)
  {
    RunMidway(h, toSize, stream, decoded, hist, m);
    VerdictBroken(h, Started(toSize), stream, tail);
    ApplyHeader(h, header, toSize, stream + tail);
    Assoc(header, stream, tail);
  }

  /** So is a patch that goes on after the end. */
  lemma StoppedTrailing(h: Host, header: seq<byte>, toSize: nat, stream: seq<byte>, decoded: seq<byte>, hist: seq<byte>,
                        m: Machine, tail: seq<byte>)
    requires IsHeader(header, toSize)
    requires Midway(h, toSize, stream, decoded, hist, m) && m.Running? && m.state == Done && m.used == |hist|
    requires tail != []
    ensures Apply(h, header + stream + tail) == Outcome(ALREADY_DONE, m.out)
  {
    RunMidway(h, toSize, stream, decoded, hist, m);
    VerdictTrailing(h, Started(toSize), stream, tail);
    ApplyHeader(h, header, toSize, stream + tail);
    Assoc(header, stream, tail);
  }

  /** And one whose window sizes are not the decoder's. */
  lemma StoppedWindow(h: Host, header: seq<byte>, toSize: nat, m: Machine, taken: seq<byte>, tail: seq<byte>)
    requires IsHeader(header, toSize)
    requires Midway(h, toSize, [], [], [], m) && !Over(m)
    requires |taken| == 1 && !GoodWindow(taken[0])
    ensures m.out == [] && Apply(h, header + taken + tail) == Outcome(HEATSHRINK_HEADER, [])
  {
    RunMidway(h, toSize, [], [], [], m);
    VerdictBroken(h, Started(toSize), taken, tail);
    ApplyHeader(h, header, toSize, taken + tail);
    Assoc(header, taken, tail);
  }

  /** The patch ends here. */
  lemma StoppedAtEnd(h: Host, header: seq<byte>, toSize: nat, stream: seq<byte>, decoded: seq<byte>, hist: seq<byte>,
                     m: Machine)
    requires IsHeader(header, toSize)
    requires Midway(h, toSize, stream, decoded, hist, m) && m.Running? && m.used == |hist|
    requires if m.state == Done then Needed(stream, |hist|) else hist == decoded
    ensures Apply(h, header + stream) ==
      if m.state != Done then Outcome(NOT_ENOUGH_PATCH_DATA, m.out)
      else if hist == decoded then Outcome(m.toSize, m.out)
      else Outcome(CORRUPT_PATCH, m.out)
  {
    RunMidway(h, toSize, stream, decoded, hist, m);
    ApplyHeader(h, header, toSize, stream);
  }

  // -- steps over a stream taken from the chunks -----------------------------------

  lemma Regroup(header: seq<byte>, stream: seq<byte>, taken: seq<byte>, rest: seq<byte>, tail: seq<byte>)
    ensures header + stream + taken == header + (stream + taken)
    ensures header + stream + (taken + rest) + tail == header + (stream + taken) + (rest + tail)
  {
  }

  lemma SameGives(stream: seq<byte>, taken: seq<byte>, before: seq<byte>, after: seq<byte>)
    requires Gives(stream, before) && Gives(stream + taken, after) && taken == []
    ensures after == before
  {
    assert stream + taken == stream;
  }

  // -- patches in chunks --------------------------------------------------------------

  function Flatten(chunks: seq<seq<byte>>): seq<byte> {
    if chunks == [] then [] else chunks[0] + Flatten(chunks[1..])
  }

  /** The first chunk that is not empty. */
  function FirstChunk(chunks: seq<seq<byte>>): seq<byte> {
    if chunks == [] then [] else if chunks[0] != [] then chunks[0] else FirstChunk(chunks[1..])
  }

  lemma {:induction false} FirstPrefix(chunks: seq<seq<byte>>) returns (more: seq<byte>)
    ensures Flatten(chunks) == FirstChunk(chunks) + more
    ensures FirstChunk(chunks) == [] ==> Flatten(chunks) == []
  {
    more := [];
    if chunks != [] {
      if chunks[0] != [] {
        more := Flatten(chunks[1..]);
      } else {
        more := FirstPrefix(chunks[1..]);
        assert Flatten(chunks) == Flatten(chunks[1..]);
      }
    }
  }

  /** The next chunk and the ones after it. */
  lemma NextChunk(chunks: seq<seq<byte>>, i: nat, done: seq<byte>, whole: seq<byte>)
    requires i < |chunks| && whole == done + Flatten(chunks[i..])
    ensures whole == done + chunks[i] + Flatten(chunks[i + 1..])
    ensures FirstChunk(chunks[i..]) == if chunks[i] != [] then chunks[i] else FirstChunk(chunks[i + 1..])
  {
    assert chunks[i..][1..] == chunks[i + 1..];
  }

  function Total(chunks: seq<seq<byte>>, i: nat): nat
    requires i <= |chunks|
  {
    if i == 0 then 0 else Total(chunks, i - 1) + |chunks[i - 1]|
  }

  lemma {:induction false} TotalMore(chunks: seq<seq<byte>>, i: nat, j: nat)
    requires i <= j <= |chunks|
    ensures Total(chunks, i) <= Total(chunks, j)
  {
    if i < j {
      TotalMore(chunks, i, j - 1);
    }
  }

  lemma {:induction false} SameOffset(chunks: seq<seq<byte>>, i: nat, k: nat)
    requires i <= k <= |chunks| && Total(chunks, i) == Total(chunks, k)
    ensures Flatten(chunks[i..]) == Flatten(chunks[k..]) && FirstChunk(chunks[i..]) == FirstChunk(chunks[k..])
    decreases k - i
  {
    if i < k {
      TotalMore(chunks, i, i + 1);
      TotalMore(chunks, i + 1, k);
      SameOffset(chunks, i + 1, k);
      assert chunks[i..][1..] == chunks[i + 1..];
    }
  }

  function FeedOf(chunks: seq<seq<byte>>): Feed {
    Feed(Flatten(chunks), set i | 0 < i <= |chunks| :: Total(chunks, i))
  }

  lemma ChunkOffers(chunks: seq<seq<byte>>, i: nat, done: seq<byte>)
    requires i < |chunks| && |done| == Total(chunks, i)
    requires Flatten(chunks) == done + chunks[i] + Flatten(chunks[i + 1..])
    ensures Offers(FeedOf(chunks), done, chunks[i], Flatten(chunks[i + 1..]))
    ensures |done + chunks[i]| == Total(chunks, i + 1)
  {
    var f := FeedOf(chunks);
    assert Total(chunks, i + 1) in f.ends;
    forall e | e in f.ends ensures e <= |done| || |done| + |chunks[i]| <= e {
      var j :| 0 < j <= |chunks| && e == Total(chunks, j);
      if j <= i {
        TotalMore(chunks, j, i);
      } else {
        TotalMore(chunks, i + 1, j);
      }
    }
  }

  /** A first chunk that decides the header decides it as the whole patch does. */
  lemma ChunkDecided(chunks: seq<seq<byte>>)
    ensures HeaderDecided(FirstChunk(chunks)) ==> Header(FirstChunk(chunks)) == Header(Flatten(chunks))
  {
    var more := FirstPrefix(chunks);
    if HeaderDecided(FirstChunk(chunks)) {
      HeaderPrefix(FirstChunk(chunks), more);
    }
  }

  /** The status and writes of a run over chunks whose first has no header. */
  lemma ChunkFailed(h: Host, f: Feed, chunks: seq<seq<byte>>, first: seq<byte>, outer: HeaderResult, res: int)
    requires f.whole == Flatten(chunks) && first == FirstChunk(chunks) && outer == Header(first)
    requires outer.HeaderError? ==> outer.code == res
    ensures outer.HeaderOk? ==> Header(first) == Header(f.whole)
    ensures outer.HeaderError? && Header(first) == Header(f.whole) ==>
      Apply(h, f.whole) == Outcome(res, []) && WriteList(h, f) == []
    ensures Header(first) != Header(f.whole) ==> res == SHORT_HEADER
  {
    ChunkDecided(chunks);
  }

  /** The outer header as the first piece of 512 bytes has it. */
  function FirstHeader(whole: seq<byte>): HeaderResult {
    Header(if |whole| < CHUNK_SIZE then whole else whole[..CHUNK_SIZE])
  }

  lemma FirstPiece(data: seq<byte>, tail: seq<byte>)
    requires |data| == CHUNK_SIZE || (|data| < CHUNK_SIZE && tail == [])
    ensures FirstHeader(data + tail) == Header(data)
  {
    assert |data| < CHUNK_SIZE ==> data + tail == data;
    assert |data| == CHUNK_SIZE ==> (data + tail)[..CHUNK_SIZE] == data;
  }

  lemma FirstFails(h: Host, f: Feed, res: int)
    requires FirstHeader(f.whole) == HeaderError(res)
    ensures Header(f.whole) == HeaderError(res) && Apply(h, f.whole) == Outcome(res, []) && WriteList(h, f) == []
  {
    if |f.whole| >= CHUNK_SIZE {
      FirstDecides(f.whole, f.whole[..CHUNK_SIZE], CHUNK_SIZE);
    }
  }

  lemma NoPatch(h: Host, f: Feed, res: int)
    ensures f.whole == [] && Header([]) == HeaderError(res) ==>
      Apply(h, f.whole) == Outcome(res, []) && WriteList(h, f) == []
  {
  }

  /** Six bytes of the patch, or all of it, decide the header as the whole patch does. */
  lemma FirstDecides(whole: seq<byte>, first: seq<byte>, n: nat)
    requires n <= |whole| && first == whole[..n] && (n >= 6 || n == |whole|)
    ensures Header(first) == Header(whole)
  {
    if n >= 6 {
      SixDecide(first);
      HeaderPrefix(first, whole[n..]);
      assert whole == first + whole[n..];
    } else {
      assert whole == first;
    }
  }

  lemma Piece(o: seq<byte>, a: nat, b: nat, c: nat)
    requires a <= b <= c <= |o|
    ensures o[a..c] == o[a..b] + o[b..c] && o[a..c][..b - a] == o[a..b]
  {
  }

  lemma SamePiece(x: seq<byte>, y: seq<byte>, from: nat, a: nat, b: nat)
    requires from <= a <= b <= |x| && |x| == |y| && x[from..] == y[from..]
    ensures x[a..b] == y[a..b]
  {
    forall i | a <= i < b ensures x[i] == y[i] {
      assert x[from..][i - from] == y[from..][i - from];
    }
  }

  // -- writes --------------------------------------------------------------------------

  lemma CutsNone(h: Host, c: Cuts, toSize: nat)
    ensures CutsTo(h, c, toSize, [], Started(toSize), [])
  {
  }

  /** A step keeps the writes what the specification's slices are. */
  lemma CutsOn(h: Host, c: Cuts, toSize: nat, hist: seq<byte>, m: Machine, writes: seq<seq<byte>>,
               got: seq<byte>, after: Machine, writes': seq<seq<byte>>)
    requires Wf(m) && CutsTo(h, c, toSize, hist, m, writes)
    requires Reaches(h, m, got, after) && Wrote(h, m, writes, got, after, writes')
    requires got != [] && m.Running? && IsData(m.state) ==> IsSlice(c, m, |got|)
    ensures CutsTo(h, c, toSize, hist + got, after, writes')
  {
    assert OpenCut(true) && OpenRun(true);
    if got == [] {
      assert hist + got == hist;
    } else {
      CutConcat(h, c, CutStart(toSize), hist, got);
      if m.Running? && IsData(m.state) {
        CutSlice(h, c, m, got, writes);
      } else {
        CutSize(h, c, m, got, writes);
      }
    }
  }

  lemma WritesOf(h: Host, f: Feed, header: seq<byte>, toSize: nat, more: seq<byte>)
    requires IsHeader(header, toSize) && f.whole == header + more
    ensures WriteList(h, f) ==
      if more == [] || !GoodWindow(more[0]) then []
      else
        var c := CutsFrom(f, |header| + 1);
        CutAll(h, c, CutStart(toSize), Decode(STATIC_CONFIG, c.q)).writes
  {
    assert OpenHeader(true);
    HeaderPrefix(header, more);
    if more != [] {
      TailOf(header, more, [], f.whole);
      assert f.whole[|header|] == more[0];
    }
  }

  /** The rest of the bytes changes nothing, if there is a rest and the run is over. */
  lemma CutsRest(h: Host, c: Cuts, toSize: nat, hist: seq<byte>, m: Machine, writes: seq<seq<byte>>, all: seq<byte>)
    requires CutsTo(h, c, toSize, hist, m, writes) && hist <= all && (Over(m) || hist == all)
    ensures CutAll(h, c, CutStart(toSize), all).writes == writes
  {
    assert OpenCut(true);
    assert all == hist + all[|hist|..];
    CutConcat(h, c, CutStart(toSize), hist, all[|hist|..]);
    if Over(m) {
      CutOver(h, c, Cutter(m, [], writes), all[|hist|..]);
    }
  }

  /** At the end of a run the writes are those of the whole patch. */
  lemma CutsEnd(h: Host, f: Feed, header: seq<byte>, toSize: nat, stream: seq<byte>, rest: seq<byte>,
                decoded: seq<byte>, hist: seq<byte>, m: Machine, writes: seq<seq<byte>>)
    requires IsHeader(header, toSize) && f.whole == header + stream + rest
    requires Gives(stream, decoded) && hist <= decoded
    requires CutsTo(h, CutsFrom(f, |header| + 1), toSize, hist, m, writes)
    requires Over(m) || (hist == decoded && rest == [])
    ensures WriteList(h, f) == writes
  {
    var c := CutsFrom(f, |header| + 1);
    Assoc(header, stream, rest);
    WritesOf(h, f, header, toSize, stream + rest);
    if stream == [] && rest == [] {
      CutsRest(h, c, toSize, hist, m, writes, hist);
    } else if stream == [] {
      CutsRest(h, c, toSize, hist, m, writes, Decode(STATIC_CONFIG, c.q));
      CutsRest(h, c, toSize, hist, m, writes, []);
    } else {
      TailOf(header, stream, rest, f.whole);
      DecodeMonotone(STATIC_CONFIG, stream[1..], rest);
      if !Over(m) {
        assert stream[1..] + rest == stream[1..];
      }
      CutsRest(h, c, toSize, hist, m, writes, Decode(STATIC_CONFIG, c.q));
    }
  }

  lemma TailOf(header: seq<byte>, stream: seq<byte>, rest: seq<byte>, whole: seq<byte>)
    requires stream != [] && whole == header + stream + rest
    ensures |whole| > |header| && whole[|header|] == stream[0] && whole[|header| + 1..] == stream[1..] + rest
  {
  }

  lemma CutsWindow(h: Host, f: Feed, header: seq<byte>, toSize: nat, m: Machine, writes: seq<seq<byte>>,
                   taken: seq<byte>, rest: seq<byte>)
    requires IsHeader(header, toSize) && f.whole == header + taken + rest && |taken| == 1 && !GoodWindow(taken[0])
    requires CutsTo(h, CutsFrom(f, |header| + 1), toSize, [], m, writes)
    ensures writes == [] && WriteList(h, f) == []
  {
    assert OpenCut(true);
    Assoc(header, taken, rest);
    WritesOf(h, f, header, toSize, taken + rest);
  }

  lemma SliceSized(h: Host, m: Machine, writes: seq<seq<byte>>, got: seq<byte>, after: Machine, writes': seq<seq<byte>>)
    requires SliceDone(h, m, writes, got, after, writes')
    ensures m.Running? && 1 <= |got| <= m.chunkSize && |got| <= SLICE
  {
    assert OpenCut(true);
  }

  lemma DecodedTo(f: Feed, header: seq<byte>, stream: seq<byte>, rest: seq<byte>, tail: seq<byte>, decoded: seq<byte>)
    requires f.whole == header + stream + rest + tail && stream != [] && Gives(stream, decoded)
    ensures var c, to := CutsFrom(f, |header| + 1), |stream| - 1 + |rest|;
      && |c.q| == to + |tail| && |decoded| <= Decodes(c, to)
      && (rest == [] ==> |decoded| == Decodes(c, to)) && (decoded != [] ==> to > 0)
  {
    var c, to := CutsFrom(f, |header| + 1), |stream| - 1 + |rest|;
    assert f.whole == header + stream + (rest + tail);
    TailOf(header, stream, rest + tail, f.whole);
    assert c.q[..to] == stream[1..] + rest;
    DecodeMonotone(STATIC_CONFIG, stream[1..], rest);
    if rest == [] {
      assert stream[1..] + rest == stream[1..];
    }
    if |stream| == 1 {
      GivesNothing(stream, decoded);
    }
  }

  /** The byte with the window sizes decodes to nothing. */
  lemma GivesNothing(stream: seq<byte>, decoded: seq<byte>)
    requires |stream| == 1 && Gives(stream, decoded)
    ensures decoded == []
  {
    assert stream[1..] == [];
    ExpansionBound([]);
  }

  lemma DecodedFrom(f: Feed, header: seq<byte>, stream: seq<byte>, more: seq<byte>, decoded: seq<byte>, n: nat)
    requires f.whole == header + stream + more && stream + more != [] && Gives(stream, decoded)
    requires n <= |decoded| && (n == |decoded| || Needed(stream, n))
    ensures var c, from := CutsFrom(f, |header| + 1), if stream == [] then 0 else |stream| - 1;
      && from <= |c.q| && Decodes(c, from) == |decoded|
      && (n == |decoded| || stream == [] || (from > 0 && Decodes(c, from - 1) < n))
  {
    var c := CutsFrom(f, |header| + 1);
    ExpansionBound([]);
    if stream == [] {
      assert c.q[..0] == [];
    } else {
      TailOf(header, stream, more, f.whole);
      assert c.q[..|stream| - 1] == stream[1..];
      if |stream| > 1 {
        assert stream[..|stream| - 1][1..] == c.q[..|stream| - 2];
      } else {
        GivesNothing(stream, decoded);
      }
    }
  }

  /** The bytes that a request for data was answered with are a slice. */
  lemma SliceCut(f: Feed, header: seq<byte>, rest: seq<byte>, tail: seq<byte>, stream: seq<byte>, decoded: seq<byte>,
                 stream': seq<byte>, rest': seq<byte>, decoded': seq<byte>, hist: seq<byte>, m: Machine, got: seq<byte>)
    requires Offers(f, header + stream, rest, tail) && (rest != [] || tail == [])
    requires stream <= stream' && header + stream + rest == header + stream' + rest'
    requires Gives(stream, decoded) && hist <= decoded && (hist == decoded || Needed(stream, |hist|))
    requires Gives(stream', decoded') && hist + got <= decoded'
    requires m.Running? && m.used == |hist| && 1 <= |got| <= m.chunkSize && |got| <= SLICE
    requires |got| == SLICE || |got| == m.chunkSize || (rest' == [] && hist + got == decoded')
    ensures IsSlice(CutsFrom(f, |header| + 1), m, |got|)
  {
    var c := CutsFrom(f, |header| + 1);
    var from, to := if stream == [] then 0 else |stream| - 1, |stream'| - 1 + |rest'|;
    DecodedTo(f, header, stream', rest', tail, decoded');
    Assoc(header + stream, rest, tail);
    DecodedFrom(f, header, stream, rest + tail, decoded, |hist|);
    RequestIsSlice(c, m, from, to, |got|);
  }
}
