/** The statuses of patches by their bytes, with the numbers that a caller sees. */
module Statuses {
  import opened Bytes
  import opened HeatshrinkSpec
  import opened Varint
  import opened PatchSpec
  import opened PatchFacts
  import opened PatchSlices
  import opened PatchHalts
  import opened PatchRuns
  import Formats
  import PatchPlans
  import RoundTrip

  // -- the outer header --------------------------------------------------------------------

  /** A patch of another type, whatever follows its first byte. */
  lemma OtherType(h: Host, f: Feed)
    requires f.whole != [] && f.whole[0] / 16 % 8 != 0
    ensures Apply(h, f.whole) == Outcome(-3, []) && WriteList(h, f) == [] && Halts(h, f) == Some(-3)
  {
  }

  /** A patch for an empty target has a header and nothing else. */
  lemma EmptyTarget(h: Host, f: Feed, n: nat)
    requires Header(f.whole) == HeaderOk(0, n) && n <= |f.whole|
    ensures Apply(h, f.whole) == Outcome(if n == |f.whole| then 0 else -11, []) && WriteList(h, f) == []
  {
    if n < |f.whole| {
      EmptyWrites(h, f, n);
    }
  }

  lemma EmptyWrites(h: Host, f: Feed, n: nat)
    requires Header(f.whole) == HeaderOk(0, n) && n < |f.whole|
    ensures WriteList(h, f) == []
  {
    var c := CutsFrom(f, n + 1);
    CutOver(h, c, CutStart(0), Decode(STATIC_CONFIG, c.q));
  }

  /** Only the byte 0x44 announces the window sizes of the decoder. */
  lemma OtherWindow(h: Host, f: Feed, toSize: nat, n: nat)
    requires Header(f.whole) == HeaderOk(toSize, n) && toSize > 0 && n < |f.whole| && f.whole[n] != 0x44
    ensures Apply(h, f.whole) == Outcome(-27, []) && WriteList(h, f) == []
  {
    assert f.whole[n..][0] == f.whole[n];
    WindowByte(f.whole[n]);
  }

  lemma WindowByte(b: byte)
    ensures GoodWindow(b) <==> b == 0x44
  {
  }

  // -- the stream ------------------------------------------------------------------------------

  /** A patch file with these compressed bytes, which decompress to bytes that begin so. */
  predicate Begins(file: seq<byte>, toSize: nat, q: seq<byte>, start: seq<byte>) {
    && 0 < toSize < 0x800_0000 && start <= Decode(STATIC_CONFIG, q)
    && |file| > 0 && file[0] / 16 % 8 == 0 && file == RoundTrip.PatchFile(file[0], toSize, q)
  }

  lemma StreamOf(h: Host, file: seq<byte>, toSize: nat, q: seq<byte>)
    requires toSize < 0x800_0000 && |file| > 0 && file[0] / 16 % 8 == 0
    requires file == RoundTrip.PatchFile(file[0], toSize, q)
    ensures Apply(h, file) == Verdict(h, Started(toSize), [0x44] + q)
  {
    RoundTrip.HeaderPacked(file[0], toSize, [0x44] + q);
    assert file[1 + |PackSize(toSize)|..] == [0x44] + q;
  }

  /** What the first bytes break stays broken. */
  lemma Fails(h: Host, file: seq<byte>, toSize: nat, q: seq<byte>, start: seq<byte>, m: Machine)
    requires Begins(file, toSize, q, start) && Reaches(h, Started(toSize), start, m) && m.Broken?
    ensures Apply(h, file) == Outcome(m.error, m.written)
  {
    assert OpenRun(true);
    var all := Decode(STATIC_CONFIG, q);
    assert all == start + all[|start|..] && ([0x44] + q)[1..] == q;
    ConsumeConcat(h, Started(toSize), start, all[|start|..]);
    ConsumeOver(h, m, all[|start|..]);
    StreamOf(h, file, toSize, q);
  }

  /** One size field after another. */
  lemma FieldNext(h: Host, m0: Machine, start: seq<byte>, m: Machine, v: int, pack: seq<byte>, next: Machine)
    requires Wf(m0) && Wf(m) && Reaches(h, m0, start, m) && m.Running? && IsSize(m.state) && m.size == First
    requires -0x800_0000 < v < 0x800_0000 && pack == PackSize(v) && next == Sized(h, m.(used := m.used + |pack|), v)
    ensures Reaches(h, m0, start + pack, next)
  {
    RoundTrip.SizeField(h, m, v, pack);
    ReachesConcat(h, m0, start, m, pack, next);
  }

  lemma FirstField(h: Host, toSize: nat, v: int, pack: seq<byte>, next: Machine)
    requires toSize > 0 && -0x800_0000 < v < 0x800_0000 && pack == PackSize(v)
    requires next == Sized(h, RoundTrip.At(DfpatchSize, toSize, [], 0, |pack|), v)
    ensures Reaches(h, Started(toSize), pack, next)
  {
    RoundTrip.SizeField(h, Started(toSize), v, pack);
  }

  /** A data format patch. */
  lemma FormatPatch(h: Host, file: seq<byte>, toSize: nat, q: seq<byte>, v: int)
    requires 0 < v < 0x800_0000 && Begins(file, toSize, q, PackSize(v))
    ensures Apply(h, file) == Outcome(-1, [])
  {
    FirstField(h, toSize, v, PackSize(v), Broken(-1, []));
    Fails(h, file, toSize, q, PackSize(v), Broken(-1, []));
  }

  /** The machine behind the first field of a sequential patch. */
  function Opened(toSize: nat): Machine {
    RoundTrip.At(DiffSize, toSize, [], 0, |PackSize(0)|)
  }

  lemma OpenedBehind(h: Host, toSize: nat)
    requires toSize > 0
    ensures Wf(Opened(toSize)) && Reaches(h, Started(toSize), PackSize(0), Opened(toSize))
  {
    FirstField(h, toSize, 0, PackSize(0), Opened(toSize));
  }

  /** A block larger than the target, or of a negative size. */
  lemma OversizeBlock(h: Host, file: seq<byte>, toSize: nat, q: seq<byte>, v: int)
    requires -0x800_0000 < v < 0x800_0000 && (v > toSize || v < 0)
    requires Begins(file, toSize, q, PackSize(0) + PackSize(v))
    ensures Apply(h, file) == Outcome(-9, [])
  {
    OpenedBehind(h, toSize);
    TooLarge(h, Opened(toSize).(used := |PackSize(0)| + |PackSize(v)|), v);
    FieldNext(h, Started(toSize), PackSize(0), Opened(toSize), v, PackSize(v), Broken(-9, []));
    Fails(h, file, toSize, q, PackSize(0) + PackSize(v), Broken(-9, []));
  }

  lemma TooLarge(h: Host, m: Machine, v: int)
    requires m.Running? && m.state == DiffSize && m.chunkSize == 0 && WfSize(m.size) && m.toOffset == 0 && m.out == []
    requires -0x800_0000 < v < 0x800_0000 && m.toSize < 0x800_0000 && (v > m.toSize || v < 0)
    ensures Sized(h, m, v) == Broken(-9, [])
  {
    Wrapped(v);
  }

  lemma Wrapped(v: int)
    requires -0x800_0000 < v < 0x800_0000
    ensures v % SIZE_MOD == if v < 0 then 0x1_0000_0000 + v else v
  {
    ModUnique(v, SIZE_MOD, if v < 0 then -1 else 0, if v < 0 then 0x1_0000_0000 + v else v);
  }

  /** The size of a block is read as an unsigned word: a negative size passes the check when
      that many bytes have been written, and stands for nearly 2^32 bytes. */
  lemma NegativeBlock(h: Host, m: Machine, v: int)
    requires m.Running? && (m.state == DiffSize || m.state == ExtraSize) && m.chunkSize == 0 && WfSize(m.size)
    requires -0x800_0000 < v < 0 && m.toOffset <= m.toSize < 0x800_0000
    ensures Sized(h, m, v) ==
      if m.toOffset + v >= 0 then m.(state := if m.state == DiffSize then DiffData else ExtraData,
                                     chunkSize := 0x1_0000_0000 + v)
      else Broken(-9, m.out)
  {
    Wrapped(v);
    var sum := m.toOffset + v;
    ModUnique(m.toOffset + (0x1_0000_0000 + v), SIZE_MOD, if sum >= 0 then 1 else 0,
              if sum >= 0 then sum else 0x1_0000_0000 + sum);
  }

  /** A fifth byte in a size field. */
  lemma LongField(h: Host, file: seq<byte>, toSize: nat, q: seq<byte>, bs: seq<byte>)
    requires |bs| == 5 && (forall i :: 0 <= i < 4 ==> bs[i] >= 128) && Begins(file, toSize, q, bs)
    ensures Apply(h, file) == Outcome(-25, [])
  {
    Formats.FieldBounds(bs);
    Formats.FieldBounds(bs[..4]);
    ConsumeSize(h, Started(toSize), bs, Overflow, 5);
    Fails(h, file, toSize, q, bs, Broken(-25, []));
  }

  /** The machine behind the size of an empty diff block ... */
  lemma EmptyDiff(h: Host, toSize: nat, zero: seq<byte>, m: Machine)
    requires 0 < toSize < 0x800_0000 && zero == PackSize(0)
    requires m == RoundTrip.At(ExtraSize, toSize, [], 0, |zero| + |zero|)
    ensures Wf(m) && Reaches(h, Started(toSize), zero + zero, m)
  {
    OpenedBehind(h, toSize);
    RoundTrip.SizedPlain(h, Opened(toSize).(used := |zero| + |zero|), 0);
    FieldNext(h, Started(toSize), zero, Opened(toSize), 0, zero, m);
  }

  /** ... and behind that of an empty extra block. */
  lemma EmptyExtra(h: Host, toSize: nat, zero: seq<byte>, m: Machine)
    requires 0 < toSize < 0x800_0000 && zero == PackSize(0)
    requires m == RoundTrip.At(Adjustment, toSize, [], 0, |zero| + |zero| + |zero|)
    ensures Wf(m) && Reaches(h, Started(toSize), zero + zero + zero, m)
  {
    var m1 := RoundTrip.At(ExtraSize, toSize, [], 0, |zero| + |zero|);
    EmptyDiff(h, toSize, zero, m1);
    RoundTrip.SizedPlain(h, m1.(used := m.used), 0);
    FieldNext(h, Started(toSize), zero + zero, m1, 0, zero, m);
  }

  /** A seek to the end of the source or beyond it. */
  lemma SeekOutside(h: Host, file: seq<byte>, toSize: nat, q: seq<byte>, v: int)
    requires -0x800_0000 < v < 0x800_0000 && h.base + v >= |h.mem|
    requires Begins(file, toSize, q, PackSize(0) + PackSize(0) + PackSize(0) + PackSize(v))
    ensures Apply(h, file) == Outcome(-10, [])
  {
    var zero := PackSize(0);
    var m := RoundTrip.At(Adjustment, toSize, [], 0, |zero| + |zero| + |zero|);
    EmptyExtra(h, toSize, zero, m);
    FieldNext(h, Started(toSize), zero + zero + zero, m, v, PackSize(v), Broken(-10, []));
    Fails(h, file, toSize, q, zero + zero + zero + PackSize(v), Broken(-10, []));
  }

  lemma FirstByte(h: Host, file: seq<byte>, toSize: nat, q: seq<byte>, start: seq<byte>, m: Machine, b: byte)
    requires Wf(m) && Reaches(h, Started(toSize), start, m) && Consume(h, m, b) == Broken(-10, [])
    requires Begins(file, toSize, q, start + [b])
    ensures Apply(h, file) == Outcome(-10, [])
  {
    assert OpenRun(true);
    ConsumeSnoc(h, Started(toSize), start, b);
    Fails(h, file, toSize, q, start + [b], Broken(-10, []));
  }

  /** A diff block where the source has no two bytes left: its last one cannot be read. */
  lemma ReadOutside(h: Host, file: seq<byte>, toSize: nat, q: seq<byte>, n: nat, b: byte)
    requires 1 <= n <= toSize && (h.base < 0 || h.base + 1 >= |h.mem|)
    requires Begins(file, toSize, q, PackSize(0) + PackSize(n) + [b])
    ensures Apply(h, file) == Outcome(-10, [])
  {
    var zero, pack := PackSize(0), PackSize(n);
    var m := RoundTrip.Inside(DiffData, toSize, [], n, 0, |zero| + |pack|);
    DiffBegun(h, toSize, n, zero, pack, m);
    FirstByte(h, file, toSize, q, zero + pack, m, b);
  }

  lemma DiffBegun(h: Host, toSize: nat, n: nat, zero: seq<byte>, pack: seq<byte>, m: Machine)
    requires 1 <= n <= toSize < 0x800_0000 && zero == PackSize(0) && pack == PackSize(n)
    requires m == RoundTrip.Inside(DiffData, toSize, [], n, 0, |zero| + |pack|)
    ensures Wf(m) && Reaches(h, Started(toSize), zero + pack, m)
  {
    OpenedBehind(h, toSize);
    RoundTrip.SizedPlain(h, Opened(toSize).(used := m.used), n);
    FieldNext(h, Started(toSize), zero, Opened(toSize), n, pack, m);
  }

  /** An extra block where the target has no two bytes left: its last one is never written. */
  lemma NoRoom(h: Host, file: seq<byte>, toSize: nat, q: seq<byte>, n: nat, b: byte)
    requires 1 <= n <= toSize && h.room <= 1
    requires Begins(file, toSize, q, PackSize(0) + PackSize(0) + PackSize(n) + [b])
    ensures Apply(h, file) == Outcome(-10, [])
  {
    var zero, pack := PackSize(0), PackSize(n);
    var m := RoundTrip.Inside(ExtraData, toSize, [], n, 0, |zero| + |zero| + |pack|);
    ExtraBegun(h, toSize, n, zero, pack, m);
    FirstByte(h, file, toSize, q, zero + zero + pack, m, b);
  }

  lemma ExtraBegun(h: Host, toSize: nat, n: nat, zero: seq<byte>, pack: seq<byte>, m: Machine)
    requires 1 <= n <= toSize < 0x800_0000 && zero == PackSize(0) && pack == PackSize(n)
    requires m == RoundTrip.Inside(ExtraData, toSize, [], n, 0, |zero| + |zero| + |pack|)
    ensures Wf(m) && Reaches(h, Started(toSize), zero + zero + pack, m)
  {
    var m1 := RoundTrip.At(ExtraSize, toSize, [], 0, |zero| + |zero|);
    EmptyDiff(h, toSize, zero, m1);
    RoundTrip.SizedPlain(h, m1.(used := m.used), n);
    FieldNext(h, Started(toSize), zero + zero, m1, n, pack, m);
  }

  // -- a slice is read before it is written ------------------------------------------------------

  lemma CutField(h: Host, c: Cuts, m: Machine, v: int, pack: seq<byte>, next: Machine)
    requires Wf(m) && m.Running? && IsSize(m.state) && m.size == First && -0x800_0000 < v < 0x800_0000
    requires pack == PackSize(v) && next == Sized(h, m.(used := m.used + |pack|), v)
    ensures CutAll(h, c, Cutter(m, [], []), pack) == Cutter(next, [], [])
  {
    ReadPacked(v);
    RoundTrip.SizeField(h, m, v, pack);
    CutSize(h, c, m, pack, []);
  }

  lemma CutUnread(h: Host, c: Cuts, m: Machine, raw: seq<byte>)
    requires Wf(m) && m.Running? && m.state == DiffData && 1 <= |raw| == m.chunkSize && |raw| <= 128
    requires c.ends == {} && m.used + |raw| <= Decodes(c, |c.q|) && !ReadOk(h, m.fromOffset, |raw|)
    ensures CutAll(h, c, Cutter(m, [], []), raw) == Cutter(Broken(-10, []), [], [])
  {
    CutSlice(h, c, m, raw, []);
  }

  /** A diff block of which the source has not all: none of it is written. */
  lemma UnreadBlock(h: Host, f: Feed, toSize: nat, q: seq<byte>, raw: seq<byte>)
    requires f.ends == {} && 1 <= |raw| <= 128 && |raw| <= toSize && !ReadOk(h, 0, |raw|)
    requires Begins(f.whole, toSize, q, PackSize(0) + PackSize(|raw|) + raw)
    ensures Apply(h, f.whole) == Outcome(-10, []) && WriteList(h, f) == []
  {
    var zero, pack := PackSize(0), PackSize(|raw|);
    var m := RoundTrip.Inside(DiffData, toSize, [], |raw|, 0, |zero| + |pack|);
    var c := Cuts(q, 2 + |PackSize(toSize)|, f.ends);
    DiffBegun(h, toSize, |raw|, zero, pack, m);
    ConsumeSlice(h, m, raw);
    ReachesConcat(h, Started(toSize), zero + pack, m, raw, Broken(-10, []));
    Fails(h, f.whole, toSize, q, zero + pack + raw, Broken(-10, []));
    PatchPlans.FileCuts(h, f, toSize, f.whole[0], q, c);
    CutBegun(h, c, toSize, |raw|, zero, pack, m);
    assert q[..|q|] == q;
    CutUnread(h, c, m, raw);
    CutConcat(h, c, CutStart(toSize), zero + pack, raw);
    CutBroken(h, c, CutStart(toSize), zero + pack + raw, Decode(STATIC_CONFIG, q));
  }

  lemma CutBegun(h: Host, c: Cuts, toSize: nat, n: nat, zero: seq<byte>, pack: seq<byte>, m: Machine)
    requires 1 <= n <= toSize < 0x800_0000 && zero == PackSize(0) && pack == PackSize(n)
    requires m == RoundTrip.Inside(DiffData, toSize, [], n, 0, |zero| + |pack|)
    ensures CutAll(h, c, CutStart(toSize), zero + pack) == Cutter(m, [], [])
  {
    CutField(h, c, Started(toSize), 0, zero, Opened(toSize));
    RoundTrip.SizedPlain(h, Opened(toSize).(used := m.used), n);
    CutField(h, c, Opened(toSize), n, pack, m);
    CutConcat(h, c, CutStart(toSize), zero, pack);
  }

  lemma CutBroken(h: Host, c: Cuts, k: Cutter, a: seq<byte>, all: seq<byte>)
    requires WfCutter(k) && a <= all && CutAll(h, c, k, a).m.Broken?
    ensures CutAll(h, c, k, all) == CutAll(h, c, k, a)
  {
    assert all == a + all[|a|..];
    CutConcat(h, c, k, a, all[|a|..]);
    CutOver(h, c, CutAll(h, c, k, a), all[|a|..]);
  }

  // -- behind the end of a prepared patch -------------------------------------------------------

  /** With bytes behind it, its target is written and the status is ALREADY_DONE. */
  lemma PreparedTrailing(h: Host, target: seq<byte>, blocks: seq<RoundTrip.Block>, first: byte, q: seq<byte>,
                         ts: seq<Token>, pad: seq<bool>, more: seq<byte>)
    requires target == RoundTrip.Target(blocks) && target != [] && |target| < 0x800_0000 && |target| < h.room
    requires RoundTrip.ValidPlan(h, 0, blocks) && first / 16 % 8 == 0 && more != []
    requires RoundTrip.Compresses(q, ts, pad)
    requires Expand(STATIC_CONFIG, [], ts) == PackSize(0) + RoundTrip.Serialise(h, 0, blocks)
    ensures Apply(h, RoundTrip.PatchFile(first, |target|, q) + more) == Outcome(-11, target)
  {
    var pack, body := PackSize(0), RoundTrip.Serialise(h, 0, blocks);
    RoundTrip.StreamNonEmpty(q, ts, pad);
    RoundTrip.DecodeCompressed(q, ts, pad);
    PlanTrailing(h, target, blocks, q, more, pack, body);
    StreamBehind(h, first, |target|, q, more);
  }

  lemma PlanTrailing(h: Host, target: seq<byte>, blocks: seq<RoundTrip.Block>, q: seq<byte>, more: seq<byte>,
                     pack: seq<byte>, body: seq<byte>)
    requires target == RoundTrip.Target(blocks) && target != [] && |target| < 0x800_0000 && |target| < h.room
    requires RoundTrip.ValidPlan(h, 0, blocks) && body == RoundTrip.Serialise(h, 0, blocks) && pack == PackSize(0)
    requires Decode(STATIC_CONFIG, q) == pack + body && more != []
    ensures Verdict(h, Started(|target|), [0x44] + q + more) == Outcome(-11, target)
  {
    RoundTrip.PlanDone(h, target, blocks, pack, body);
    TrailingVerdict(h, Started(|target|), q, more, ConsumeAll(h, Started(|target|), pack + body));
  }

  lemma StreamBehind(h: Host, first: byte, toSize: nat, q: seq<byte>, more: seq<byte>)
    requires toSize < 0x800_0000 && first / 16 % 8 == 0
    ensures Apply(h, RoundTrip.PatchFile(first, toSize, q) + more) == Verdict(h, Started(toSize), [0x44] + q + more)
  {
    var file, pack, stream := RoundTrip.PatchFile(first, toSize, q), PackSize(toSize), [0x44] + q + more;
    RoundTrip.HeaderPacked(first, toSize, stream);
    assert file + more == [first] + pack + stream;
    assert (file + more)[1 + |pack|..] == stream;
  }

  lemma TrailingVerdict(h: Host, m0: Machine, q: seq<byte>, more: seq<byte>, m: Machine)
    requires Wf(m0) && !Over(m0) && more != [] && m == ConsumeAll(h, m0, Decode(STATIC_CONFIG, q))
    requires m.Running? && m.state == Done && m.used <= |Decode(STATIC_CONFIG, q)|
    ensures Verdict(h, m0, [0x44] + q + more) == Outcome(-11, m.out)
  {
    assert ([0x44] + q)[1..] == q;
    VerdictTrailing(h, m0, [0x44] + q, more);
  }

  /** With bytes behind it that only its last byte gives, the status is CORRUPT_PATCH. */
  lemma PreparedSurplus(h: Host, target: seq<byte>, blocks: seq<RoundTrip.Block>, file: seq<byte>, q: seq<byte>,
                        more: seq<byte>)
    requires target == RoundTrip.Target(blocks) && target != [] && |target| < 0x800_0000 && |target| < h.room
    requires RoundTrip.ValidPlan(h, 0, blocks) && more != [] && q != []
    requires |file| > 0 && file[0] / 16 % 8 == 0 && file == RoundTrip.PatchFile(file[0], |target|, q)
    requires Decode(STATIC_CONFIG, q) == PackSize(0) + RoundTrip.Serialise(h, 0, blocks) + more
    requires |Decode(STATIC_CONFIG, q[..|q| - 1])| < |PackSize(0) + RoundTrip.Serialise(h, 0, blocks)|
    ensures Apply(h, file) == Outcome(-9, target)
  {
    var m0, bs := Started(|target|), PackSize(0) + RoundTrip.Serialise(h, 0, blocks);
    RoundTrip.PlanDone(h, target, blocks, PackSize(0), RoundTrip.Serialise(h, 0, blocks));
    ConsumeConcat(h, m0, bs, more);
    ConsumeOver(h, ConsumeAll(h, m0, bs), more);
    StreamOf(h, file, |target|, q);
    SurplusVerdict(h, m0, [0x44] + q, q, |bs|, ConsumeAll(h, m0, bs));
  }

  lemma SurplusVerdict(h: Host, m0: Machine, stream: seq<byte>, q: seq<byte>, n: nat, m: Machine)
    requires Wf(m0) && !Over(m0) && stream == [0x44] + q && q != [] && m == ConsumeAll(h, m0, Decode(STATIC_CONFIG, q))
    requires m.Running? && m.state == Done && m.used == n
    requires |Decode(STATIC_CONFIG, q[..|q| - 1])| < n < |Decode(STATIC_CONFIG, q)|
    ensures Verdict(h, m0, stream) == Outcome(-9, m.out)
  {
    assert stream[1..] == q && stream[..|stream| - 1][1..] == q[..|q| - 1];
  }
}
