/** Patches built from a source and a target, by any division into blocks and any
    heatshrink token list, give the target back. */
module RoundTrip {
  import opened Bytes
  import opened HeatshrinkSpec
  import opened Varint
  import opened PatchSpec
  import opened PatchFacts
  import opened PatchRuns

  /** One step of a plan: target bytes to be patched from the source, target bytes
      to be copied from the patch, and a seek in the source. */
  datatype Block = Block(diff: seq<byte>, extra: seq<byte>, adjustment: int)

  /** The target a plan divides into blocks. */
  function Target(blocks: seq<Block>): seq<byte> {
    if blocks == [] then [] else blocks[0].diff + blocks[0].extra + Target(blocks[1..])
  }

  /** The source is readable where a diff needs it, and the target is complete at
      the end of the last block and not earlier. */
  predicate ValidPlan(h: Host, from: int, blocks: seq<Block>)
    decreases blocks
  {
    && blocks != []
    && var b, rest := blocks[0], blocks[1..];
      && (b.diff != [] ==> ReadOk(h, from, |b.diff|))
      && -0x800_0000 < b.adjustment < 0x800_0000
      && SeekOk(h, from + |b.diff| + b.adjustment)
      && (rest != [] ==> Target(rest) != [] && ValidPlan(h, from + |b.diff| + b.adjustment, rest))
  }

  function Minus(a: int, b: int): byte {
    (a - b) % 256
  }

  function Diff(h: Host, from: int, target: seq<byte>): (d: seq<byte>)
    requires target != [] ==> ReadOk(h, from, |target|)
    ensures |d| == |target|
  {
    seq(|target|, i requires 0 <= i < |target| => Minus(target[i], h.mem[h.base + from + i]))
  }

  function DiffPart(h: Host, from: int, t: seq<byte>): seq<byte>
    requires t != [] ==> ReadOk(h, from, |t|)
  {
    PackSize(|t|) + Diff(h, from, t)
  }

  function ExtraPart(t: seq<byte>): seq<byte> {
    PackSize(|t|) + t
  }

  function BlockBytes(h: Host, from: int, b: Block): seq<byte>
    requires b.diff != [] ==> ReadOk(h, from, |b.diff|)
  {
    DiffPart(h, from, b.diff) + (ExtraPart(b.extra) + PackSize(b.adjustment))
  }

  /** The decompressed stream of a patch, after the dfpatch size. */
  function Serialise(h: Host, from: int, blocks: seq<Block>): seq<byte>
    requires ValidPlan(h, from, blocks)
    decreases blocks
  {
    var b, rest := blocks[0], blocks[1..];
    if rest == [] then BlockBytes(h, from, b)
    else BlockBytes(h, from, b) + Serialise(h, from + |b.diff| + b.adjustment, rest)
  }

  // -- reading it back -------------------------------------------------------------

  /** The machine between two blocks' parts. */
  function At(state: PatchState, toSize: nat, out: seq<byte>, from: int, used: nat): Machine {
    Running(state, First, toSize, |out|, 0, from, used, out)
  }

  /** The machine inside a block with n bytes of data ahead. */
  function Inside(state: PatchState, toSize: nat, out: seq<byte>, n: nat, from: int, used: nat): Machine {
    Running(state, First, toSize, |out|, n, from, used, out)
  }

  lemma SizeField(h: Host, m: Machine, v: int, pack: seq<byte>)
    requires Wf(m) && m.Running? && IsSize(m.state) && m.size == First
    requires -0x800_0000 < v < 0x800_0000 && pack == PackSize(v)
    ensures ConsumeAll(h, m, pack) == Sized(h, m.(used := m.used + |pack|), v)
  {
    ReadPacked(v);
    ConsumeSize(h, m, pack, Complete(v), m.used + |pack|);
    assert m.(size := First, used := m.used + |pack|) == m.(used := m.used + |pack|);
  }

  /** Subtracting and adding the source is the identity modulo 256. */
  lemma DiffUndone(h: Host, m: Machine, t: seq<byte>)
    requires m.Running? && m.state == DiffData && ReadOk(h, m.fromOffset, |t|)
    ensures Slice(h, m, Diff(h, m.fromOffset, t)) == t
  {
    var r := Slice(h, m, Diff(h, m.fromOffset, t));
    forall i | 0 <= i < |t| ensures r[i] == t[i] {
      assert ReadOk(h, m.fromOffset + i, 1);
    }
  }

  lemma ConsumeTwo(h: Host, m: Machine, a: seq<byte>, m1: Machine, b: seq<byte>, m2: Machine)
    requires Wf(m) && ConsumeAll(h, m, a) == m1 && ConsumeAll(h, m1, b) == m2
    ensures ConsumeAll(h, m, a + b) == m2
  {
    ConsumeConcat(h, m, a, b);
  }

  function After(state: PatchState): PatchState {
    if state == DiffSize || state == DiffData then ExtraSize else Adjustment
  }

  function DataOf(state: PatchState): PatchState {
    if state == DiffSize then DiffData else ExtraData
  }

  lemma PartSize(h: Host, state: PatchState, toSize: nat, out: seq<byte>, from: int, used: nat, n: nat, pack: seq<byte>)
    requires |out| + n <= toSize < 0x800_0000
    requires state == DiffSize || state == ExtraSize
    requires pack == PackSize(n)
    ensures ConsumeAll(h, At(state, toSize, out, from, used), pack)
         == if n == 0 then At(After(state), toSize, out, from, used + |pack|)
            else Inside(DataOf(state), toSize, out, n, from, used + |pack|)
  {
    var next := At(state, toSize, out, from, used + |pack|);
    SizedPlain(h, next, n);
    SizeField(h, At(state, toSize, out, from, used), n, pack);
  }

  /** Within the target, the modular check is the plain one. */
  lemma SizedPlain(h: Host, m: Machine, n: nat)
    requires m.Running? && (m.state == DiffSize || m.state == ExtraSize) && m.chunkSize == 0 && WfSize(m.size)
    requires m.toOffset + n <= m.toSize < 0x800_0000
    ensures Sized(h, m, n) ==
      if n == 0 then m.(state := After(m.state)) else m.(state := DataOf(m.state), chunkSize := n)
  {
    assert n % SIZE_MOD == n && (m.toOffset + n) % SIZE_MOD == m.toOffset + n;
  }

  lemma PartData(h: Host, state: PatchState, toSize: nat, out: seq<byte>, from: int, used: nat,
                 t: seq<byte>, data: seq<byte>)
    requires |out| + |t| <= toSize < 0x800_0000 && toSize < h.room
    requires IsData(state) && |data| == |t| > 0
    requires state == DiffData ==> ReadOk(h, from, |t|)
    requires Slice(h, Inside(state, toSize, out, |t|, from, used), data) == t
    ensures ConsumeAll(h, Inside(state, toSize, out, |t|, from, used), data)
         == At(After(state), toSize, out + t, if state == DiffData then from + |t| else from, used + |data|)
  {
    var m := Inside(state, toSize, out, |t|, from, used);
    ConsumeSlice(h, m, data);
    SlidPlain(h, m, data, t);
  }

  lemma SlidPlain(h: Host, m: Machine, data: seq<byte>, t: seq<byte>)
    requires Wf(m) && m.Running? && IsData(m.state) && |data| == |t| == m.chunkSize
    requires m.state == DiffData ==> ReadOk(h, m.fromOffset, |t|)
    requires Slice(h, m, data) == t && m.toOffset == |m.out|
    requires |m.out| + |t| <= m.toSize < 0x800_0000 && m.toSize < h.room
    ensures Slid(h, m, data) == Running(After(m.state), m.size, m.toSize, |m.out + t|, 0,
      if m.state == DiffData then m.fromOffset + |t| else m.fromOffset, m.used + |data|, m.out + t)
  {
    assert (m.toOffset + |t|) % SIZE_MOD == |m.out + t|;
  }

  /** A data block of either kind: its size, then its bytes in one slice. */
  lemma PartRead(h: Host, state: PatchState, toSize: nat, out: seq<byte>, from: int, used: nat,
                 t: seq<byte>, pack: seq<byte>, data: seq<byte>, part: seq<byte>, from': int)
    requires |out| + |t| <= toSize < 0x800_0000 && toSize < h.room
    requires state == DiffSize || state == ExtraSize
    requires pack == PackSize(|t|) && |data| == |t| && part == pack + data
    requires t != [] && state == DiffSize ==> ReadOk(h, from, |t|)
    requires t != [] ==> Slice(h, Inside(DataOf(state), toSize, out, |t|, from, used + |pack|), data) == t
    requires from' == if state == DiffSize then from + |t| else from
    ensures ConsumeAll(h, At(state, toSize, out, from, used), part)
         == At(After(state), toSize, out + t, from', used + |part|)
  {
    var m := At(state, toSize, out, from, used);
    PartSize(h, state, toSize, out, from, used, |t|, pack);
    if t == [] {
      assert out + t == out;
      assert part == pack;
    } else {
      var d, used1 := DataOf(state), used + |pack|;
      var mid := Inside(d, toSize, out, |t|, from, used1);
      PartData(h, d, toSize, out, from, used1, t, data);
      ConsumeTwo(h, m, pack, mid, data, ConsumeAll(h, mid, data));
      assert After(d) == After(state);
    }
  }

  lemma DiffPartRead(h: Host, toSize: nat, out: seq<byte>, from: int, used: nat, t: seq<byte>, part: seq<byte>)
    requires |out| + |t| <= toSize < 0x800_0000 && toSize < h.room
    requires t != [] ==> ReadOk(h, from, |t|)
    requires part == DiffPart(h, from, t)
    ensures Reaches(h, At(DiffSize, toSize, out, from, used), part,
                    At(ExtraSize, toSize, out + t, from + |t|, used + |part|))
  {
    var pack, diff := PackSize(|t|), Diff(h, from, t);
    if t != [] {
      DiffUndone(h, Inside(DiffData, toSize, out, |t|, from, used + |pack|), t);
    }
    PartRead(h, DiffSize, toSize, out, from, used, t, pack, diff, part, from + |t|);
  }

  lemma ExtraPartRead(h: Host, toSize: nat, out: seq<byte>, from: int, used: nat, t: seq<byte>, part: seq<byte>)
    requires |out| + |t| <= toSize < 0x800_0000 && toSize < h.room
    requires part == ExtraPart(t)
    ensures Reaches(h, At(ExtraSize, toSize, out, from, used), part,
                    At(Adjustment, toSize, out + t, from, used + |part|))
  {
    PartRead(h, ExtraSize, toSize, out, from, used, t, PackSize(|t|), t, part, from);
  }

  lemma AdjustRead(h: Host, toSize: nat, out: seq<byte>, from: int, used: nat, v: int, pack: seq<byte>, after: Machine)
    requires -0x800_0000 < v < 0x800_0000 && SeekOk(h, from + v) && pack == PackSize(v)
    requires after == At(if |out| == toSize then Done else DiffSize, toSize, out, from + v, used + |pack|)
    ensures Reaches(h, At(Adjustment, toSize, out, from, used), pack, after)
  {
    var m := At(Adjustment, toSize, out, from, used);
    SizeField(h, m, v, pack);
    AdjustSized(h, toSize, out, from, used + |pack|, v, after);
  }

  lemma AdjustSized(h: Host, toSize: nat, out: seq<byte>, from: int, used: nat, v: int, after: Machine)
    requires SeekOk(h, from + v) && after == At(if |out| == toSize then Done else DiffSize, toSize, out, from + v, used)
    ensures Sized(h, At(Adjustment, toSize, out, from, used), v) == after
  {
  }

  lemma BlockRead(h: Host, toSize: nat, out: seq<byte>, from: int, used: nat,
                  b: Block, bytes: seq<byte>, after: Machine)
    requires |out| + |b.diff| + |b.extra| <= toSize < 0x800_0000 && toSize < h.room
    requires b.diff != [] ==> ReadOk(h, from, |b.diff|)
    requires -0x800_0000 < b.adjustment < 0x800_0000 && SeekOk(h, from + |b.diff| + b.adjustment)
    requires bytes == BlockBytes(h, from, b)
    requires after == At(if |out| + |b.diff| + |b.extra| == toSize then Done else DiffSize,
                         toSize, out + b.diff + b.extra, from + |b.diff| + b.adjustment, used + |bytes|)
    ensures ConsumeAll(h, At(DiffSize, toSize, out, from, used), bytes) == after
  {
    var x, y, z := DiffPart(h, from, b.diff), ExtraPart(b.extra), PackSize(b.adjustment);
    PartsRead(h, toSize, out, from, used, b, x, y, z, used + |x|, used + |x| + |y|, after);
    assert OpenRun(true);
  }

  lemma PartsRead(h: Host, toSize: nat, out: seq<byte>, from: int, used: nat, b: Block,
                  x: seq<byte>, y: seq<byte>, z: seq<byte>, used1: nat, used2: nat, after: Machine)
    requires |out| + |b.diff| + |b.extra| <= toSize < 0x800_0000 && toSize < h.room
    requires b.diff != [] ==> ReadOk(h, from, |b.diff|)
    requires -0x800_0000 < b.adjustment < 0x800_0000 && SeekOk(h, from + |b.diff| + b.adjustment)
    requires x == DiffPart(h, from, b.diff) && y == ExtraPart(b.extra) && z == PackSize(b.adjustment)
    requires used1 == used + |x| && used2 == used1 + |y|
    requires after == At(if |out + b.diff + b.extra| == toSize then Done else DiffSize,
                         toSize, out + b.diff + b.extra, from + |b.diff| + b.adjustment, used2 + |z|)
    ensures Reaches(h, At(DiffSize, toSize, out, from, used), x + (y + z), after)
  {
    var out1, from1 := out + b.diff, from + |b.diff|;
    var out2 := out1 + b.extra;
    DiffPartRead(h, toSize, out, from, used, b.diff, x);
    ExtraPartRead(h, toSize, out1, from1, used1, b.extra, y);
    AdjustRead(h, toSize, out2, from1, used2, b.adjustment, z, after);
    var m1, m2 := At(ExtraSize, toSize, out1, from1, used1), At(Adjustment, toSize, out2, from1, used2);
    ReachesConcat(h, m1, y, m2, z, after);
    ReachesConcat(h, At(DiffSize, toSize, out, from, used), x, m1, y + z, after);
  }

  /** All the blocks: the machine is done exactly at the end, with the target. */
  lemma {:induction false} PlanRead(h: Host, toSize: nat, out: seq<byte>, from: int, used: nat,
                                    blocks: seq<Block>, bytes: seq<byte>, target: seq<byte>) returns (last: Machine)
    requires ValidPlan(h, from, blocks) && bytes == Serialise(h, from, blocks) && target == Target(blocks)
    requires |out + target| == toSize < 0x800_0000 && toSize < h.room
    ensures last == ConsumeAll(h, At(DiffSize, toSize, out, from, used), bytes)
    ensures last.Running? && last.state == Done && last.toSize == toSize && last.out == out + target
    ensures last.used == used + |bytes|
    decreases blocks
  {
    var b, rest := blocks[0], blocks[1..];
    var first, m0 := BlockBytes(h, from, b), At(DiffSize, toSize, out, from, used);
    var out', from', used' := out + b.diff + b.extra, from + |b.diff| + b.adjustment, used + |first|;
    TargetNext(h, from, blocks, out, target, out');
    if rest == [] {
      last := At(Done, toSize, out', from', used');
      BlockRead(h, toSize, out, from, used, b, first, last);
    } else {
      var mid := At(DiffSize, toSize, out', from', used');
      var more := BytesNext(h, from, blocks, first, from');
      BlockRead(h, toSize, out, from, used, b, first, mid);
      last := PlanRead(h, toSize, out', from', used', rest, more, Target(rest));
      ConsumeTwo(h, m0, first, mid, more, last);
    }
  }

  lemma TargetNext(h: Host, from: int, blocks: seq<Block>, out: seq<byte>, target: seq<byte>, out': seq<byte>)
    requires ValidPlan(h, from, blocks) && target == Target(blocks)
    requires out' == out + blocks[0].diff + blocks[0].extra
    ensures out + target == out' + Target(blocks[1..])
    ensures |out'| == |out + target| <==> blocks[1..] == []
  {
  }

  lemma BytesNext(h: Host, from: int, blocks: seq<Block>, first: seq<byte>, from': int) returns (more: seq<byte>)
    requires ValidPlan(h, from, blocks) && blocks[1..] != []
    requires from' == from + |blocks[0].diff| + blocks[0].adjustment && first == BlockBytes(h, from, blocks[0])
    ensures ValidPlan(h, from', blocks[1..]) && more == Serialise(h, from', blocks[1..])
    ensures Serialise(h, from, blocks) == first + more
  {
    more := Serialise(h, from', blocks[1..]);
  }

  // -- the outer header ------------------------------------------------------------

  lemma {:induction false} HeaderTailPacked(p: seq<byte>, i: nat, n: nat, tail: seq<byte>, value: nat, offset: nat,
                                            total: nat)
    requires offset in {6, 13, 20} && n * Pow2(offset) < 0x800_0000 && total == value + n * Pow2(offset)
    requires tail == PackTail(n) && i + |tail| <= |p| && p[i..i + |tail|] == tail
    ensures HeaderTail(p, i, value, offset) == HeaderOk(total, i + |tail|)
    decreases n
  {
    SliceRest(p, i, tail);
    if n < 128 {
      HeaderTailLast(p, i, n, value, offset);
    } else {
      var value' := HeaderTailMore(p, i, n, value, offset, total);
      HeaderTailPacked(p, i + 1, n / 128, PackTail(n / 128), value', offset + 7, total);
    }
  }

  lemma SliceRest<T>(p: seq<T>, i: nat, s: seq<T>)
    requires s != [] && i + |s| <= |p| && p[i..i + |s|] == s
    ensures p[i] == s[0] && p[i + 1..i + 1 + |s[1..]|] == s[1..]
  {
    assert p[i + 1..i + |s|] == p[i..i + |s|][1..];
  }

  lemma HeaderTailLast(p: seq<byte>, i: nat, n: nat, value: nat, offset: nat)
    requires i < |p| && p[i] == n < 128 && !IsOverflow(offset)
    ensures HeaderTail(p, i, value, offset) == HeaderOk(value + n * Pow2(offset), i + 1)
  {
    assert n % 128 == n;
  }

  lemma HeaderTailMore(p: seq<byte>, i: nat, n: nat, value: nat, offset: nat, total: nat) returns (value': nat)
    requires offset in {6, 13, 20} && n * Pow2(offset) < 0x800_0000 && total == value + n * Pow2(offset)
    requires i < |p| && n >= 128 && p[i] == 128 + n % 128
    ensures HeaderTail(p, i, value, offset) == HeaderTail(p, i + 1, value', offset + 7) && offset + 7 in {13, 20}
    ensures total == value' + n / 128 * Pow2(offset + 7) && n / 128 * Pow2(offset + 7) < 0x800_0000
  {
    value' := value + n % 128 * Pow2(offset);
    NextOffset(n, offset);
    HeaderTailNext(p, i, value, offset, n % 128);
  }

  lemma HeaderTailNext(p: seq<byte>, i: nat, value: nat, offset: nat, low: nat)
    requires i < |p| && low < 128 && p[i] == 128 + low && !IsOverflow(offset)
    ensures HeaderTail(p, i, value, offset) == HeaderTail(p, i + 1, value + low * Pow2(offset), offset + 7)
  {
    TopBit(p[i], low);
  }

  lemma HeaderPacked(first: byte, toSize: nat, rest: seq<byte>)
    requires first / 16 % 8 == 0 && toSize < 0x800_0000
    ensures Header([first] + PackSize(toSize) + rest) == HeaderOk(toSize, 1 + |PackSize(toSize)|)
  {
    var p := [first] + PackSize(toSize) + rest;
    assert p[1] == PackSize(toSize)[0];
    if toSize >= 64 {
      HeaderMore(p, first, toSize, PackTail(toSize / 64), rest);
    }
  }

  lemma HeaderMore(p: seq<byte>, first: byte, toSize: nat, tail: seq<byte>, rest: seq<byte>)
    requires first / 16 % 8 == 0 && 64 <= toSize < 0x800_0000 && tail == PackTail(toSize / 64)
    requires p == [first] + ([toSize % 64 + 128] + tail) + rest
    ensures Header(p) == HeaderOk(toSize, 2 + |tail|)
  {
    Offsets();
    assert p[2..2 + |tail|] == tail;
    HeaderTailPacked(p, 2, toSize / 64, tail, toSize % 64, 6, toSize);
    assert p[1] == toSize % 64 + 128 && p[1] % 64 == toSize % 64;
  }

  // -- the compressed stream -------------------------------------------------------

  lemma {:induction false} ExpandGrows(c: Config, hist: seq<byte>, ts: seq<Token>)
    requires forall t :: t in ts ==> WfToken(c, t)
    ensures |Expand(c, hist, ts)| >= |hist| + |ts|
    decreases ts
  {
    if ts != [] {
      ExpandGrows(c, ExpandToken(c, hist, ts[0]), ts[1..]);
    }
  }

  /** Cutting an encoding short loses output. */
  lemma {:induction false} CutShort(c: Config, ts: seq<Token>, bits: seq<bool>, hist: seq<byte>)
    requires ValidConfig(c) && (forall t :: t in ts ==> WfToken(c, t))
    requires bits < EncodeTokens(c, ts)
    ensures |Expand(c, hist, ParseTokens(c, bits))| < |Expand(c, hist, ts)|
    decreases ts
  {
    var first, tail := TokenBits(c, ts[0]), EncodeTokens(c, ts[1..]);
    if |bits| < |first| {
      assert bits != [] ==> bits[0] == first[0];
      assert FirstToken(c, bits).None?;
      ExpandGrows(c, hist, ts);
    } else {
      var rest := bits[|first|..];
      assert bits == first + rest && rest < tail;
      FirstOfEncode(c, ts[0], rest);
      CutShort(c, ts[1..], rest, ExpandToken(c, hist, ts[0]));
    }
  }

  /** Compressed bytes: the tokens' bits, padded to a byte. */
  ghost predicate Compresses(q: seq<byte>, ts: seq<Token>, pad: seq<bool>) {
    && (forall t :: t in ts ==> WfToken(STATIC_CONFIG, t))
    && |pad| < 8
    && Bits(q) == EncodeTokens(STATIC_CONFIG, ts) + pad
  }

  /** The stream decodes to the tokens' expansion, and its last byte is needed. */
  lemma DecodeCompressed(q: seq<byte>, ts: seq<Token>, pad: seq<bool>)
    requires Compresses(q, ts, pad) && q != []
    ensures Decode(STATIC_CONFIG, q) == Expand(STATIC_CONFIG, [], ts)
    ensures |Decode(STATIC_CONFIG, q[..|q| - 1])| < |Decode(STATIC_CONFIG, q)|
  {
    SettleTokens(Bits(q), ts, pad);
    InitLast(q);
    DecodeShort(q[..|q| - 1], q[|q| - 1], q, ts, pad);
  }

  lemma SettleTokens(bits: seq<bool>, ts: seq<Token>, pad: seq<bool>)
    requires (forall t :: t in ts ==> WfToken(STATIC_CONFIG, t)) && |pad| < 8
    requires bits == EncodeTokens(STATIC_CONFIG, ts) + pad
    ensures Settle(STATIC_CONFIG, Start(bits)).hist == Expand(STATIC_CONFIG, [], ts)
  {
    SettleIsExpand(STATIC_CONFIG, bits, []);
    ParseEncode(STATIC_CONFIG, ts, pad);
  }

  lemma DecodeShort(init: seq<byte>, last: byte, q: seq<byte>, ts: seq<Token>, pad: seq<bool>)
    requires Compresses(q, ts, pad) && q == init + [last]
    ensures |Decode(STATIC_CONFIG, init)| < |Expand(STATIC_CONFIG, [], ts)|
  {
    BitsConcat(init, [last]);
    LastByteNeeded(ts, pad, Bits(init), Bits([last]));
    SettleIsExpand(STATIC_CONFIG, Bits(init), []);
  }

  /** Padding does not fill the last byte. */
  lemma LastByteNeeded(ts: seq<Token>, pad: seq<bool>, bits: seq<bool>, last: seq<bool>)
    requires (forall t :: t in ts ==> WfToken(STATIC_CONFIG, t)) && |pad| < |last|
    requires bits + last == EncodeTokens(STATIC_CONFIG, ts) + pad
    ensures |Expand(STATIC_CONFIG, [], ParseTokens(STATIC_CONFIG, bits))| < |Expand(STATIC_CONFIG, [], ts)|
  {
    PrefixOfBoth(bits, last, EncodeTokens(STATIC_CONFIG, ts), pad);
    CutShort(STATIC_CONFIG, ts, bits, []);
  }

  lemma PrefixOfBoth<T>(a: seq<T>, x: seq<T>, b: seq<T>, y: seq<T>)
    requires a + x == b + y && |a| < |b|
    ensures a < b
  {
    assert a == (a + x)[..|a|] == (b + y)[..|a|] == b[..|a|];
  }

  // -- the theorem -----------------------------------------------------------------

  /** A patch file: type and compression, target size, window sizes, data. */
  function PatchFile(first: byte, toSize: nat, q: seq<byte>): seq<byte> {
    [first] + PackSize(toSize) + ([0x44] + q)
  }

  /** For every source and target, every division of the target into blocks and every
      token list for the blocks' bytes, the patch applied to the source gives the target. */
  lemma PatchRoundTrip(h: Host, target: seq<byte>, blocks: seq<Block>, first: byte,
                       q: seq<byte>, ts: seq<Token>, pad: seq<bool>)
    requires target == Target(blocks) && target != [] && |target| < 0x800_0000 && |target| < h.room
    requires ValidPlan(h, 0, blocks) && first / 16 % 8 == 0
    requires Compresses(q, ts, pad)
    requires Expand(STATIC_CONFIG, [], ts) == PackSize(0) + Serialise(h, 0, blocks)
    ensures Apply(h, PatchFile(first, |target|, q)) == Outcome(|target|, target)
  {
    var toSize, body, pack := |target|, Serialise(h, 0, blocks), PackSize(0);
    StreamNonEmpty(q, ts, pad);
    DecodeCompressed(q, ts, pad);
    PlanDone(h, target, blocks, pack, body);
    AllUsed(h, toSize, q, pack + body);
    HeaderPacked(first, toSize, [0x44] + q);
    assert PatchFile(first, toSize, q)[1 + |PackSize(toSize)|..] == [0x44] + q;
  }

  /** Everything is used, and the last compressed byte is needed for it. */
  lemma AllUsed(h: Host, toSize: nat, q: seq<byte>, bs: seq<byte>)
    requires toSize > 0 && q != [] && Decode(STATIC_CONFIG, q) == bs
    requires |Decode(STATIC_CONFIG, q[..|q| - 1])| < |bs|
    requires var m := ConsumeAll(h, Started(toSize), bs);
             m.Running? && m.state == Done && m.used == |bs|
    ensures var m := ConsumeAll(h, Started(toSize), bs);
            Verdict(h, Started(toSize), [0x44] + q) == Outcome(m.toSize, m.out)
  {
    var stream, init := [0x44] + q, [0x44] + q[..|q| - 1];
    DropPrefix([0x44], q);
    DropPrefix([0x44], q[..|q| - 1]);
    assert stream[..|stream| - 1] == init;
    LastNeeded(h, toSize, stream, init, q, q[..|q| - 1], bs);
  }

  lemma LastNeeded(h: Host, toSize: nat, stream: seq<byte>, init: seq<byte>, q: seq<byte>, q': seq<byte>, bs: seq<byte>)
    requires toSize > 0 && stream != [] && stream[0] == 0x44 && stream[1..] == q && stream[..|stream| - 1] == init
    requires init != [] && init[1..] == q' && Decode(STATIC_CONFIG, q) == bs && |Decode(STATIC_CONFIG, q')| < |bs|
    requires var m := ConsumeAll(h, Started(toSize), bs); m.Running? && m.state == Done && m.used == |bs|
    ensures var m := ConsumeAll(h, Started(toSize), bs); Verdict(h, Started(toSize), stream) == Outcome(m.toSize, m.out)
  {
  }

  lemma PlanDone(h: Host, target: seq<byte>, blocks: seq<Block>, pack: seq<byte>, body: seq<byte>)
    requires target == Target(blocks) && target != [] && |target| < 0x800_0000 && |target| < h.room
    requires ValidPlan(h, 0, blocks) && body == Serialise(h, 0, blocks) && pack == PackSize(0)
    ensures var m := ConsumeAll(h, Started(|target|), pack + body);
            m.Running? && m.state == Done && m.out == target && m.toSize == |target| && m.used == |pack + body|
  {
    var m0 := Started(|target|);
    SizeField(h, m0, 0, pack);
    ConsumeConcat(h, m0, pack, body);
    assert target == [] + target;
    var _ := PlanRead(h, |target|, [], 0, |pack|, blocks, body, target);
  }

  lemma StreamNonEmpty(q: seq<byte>, ts: seq<Token>, pad: seq<bool>)
    requires Compresses(q, ts, pad) && Expand(STATIC_CONFIG, [], ts) != []
    ensures q != []
  {
    if ts != [] {
      assert |EncodeTokens(STATIC_CONFIG, ts)| >= |TokenBits(STATIC_CONFIG, ts[0])|;
    }
  }
}
