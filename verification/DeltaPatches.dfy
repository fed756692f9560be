/** Patches in the storage partition: prepared ones do what they were made for, and
    two made on purpose show that the conditions of Delta are needed. */
module DeltaPatches {
  import opened Bytes
  import opened FlashSpec
  import opened EraseAhead
  import opened SlotContents
  import opened PatchHeader
  import opened Delta
  import PatchSpec
  import PatchSlices
  import PatchPlans
  import SamplePatches
  import Encoding
  import HeatshrinkSpec
  import RoundTrip
  import TruncatedPatches
  import PatchHalts
  import FlashDevice
  import Varint

  /** A padded patch at the start of the partition, which the read callback reaches the end of. */
  predicate Holding(l: Layout, mem: seq<byte>, file: seq<byte>)
    requires ValidLayout(l, |mem|)
  {
    && 0 < |file| < 0x1_0000_0000 && Reachable(l, |mem|, |file|)
    && mem[l.storageOffset..l.storageOffset + HEADER_SIZE + |file|] == PadPatch(file)
  }

  lemma HoldingDue(l: Layout, mem: seq<byte>, file: seq<byte>)
    requires ValidLayout(l, |mem|) && Holding(l, mem, file)
    ensures Due(l, mem) && AnnouncedSize(l, mem) == |file| && ReadablePatch(l, mem, |file|) == file
  {
    PaddedFound(l, mem, file);
  }

  lemma SourceSeeks(l: Layout, mem: seq<byte>)
    requires ValidLayout(l, |mem|)
    ensures PatchSpec.SeekOk(Source(l, mem), 0) && Source(l, mem).room == l.secondarySize > 0
  {
  }

  // -- prepared patches ---------------------------------------------------------------------

  /** A patch made of a plan for a target, by any division into blocks and any token list. */
  ghost predicate Prepared(h: PatchSpec.Host, file: seq<byte>, target: seq<byte>, blocks: seq<RoundTrip.Block>,
                           q: seq<byte>) {
    && target == RoundTrip.Target(blocks) && target != [] && |target| < 0x800_0000 && |target| < h.room
    && RoundTrip.ValidPlan(h, 0, blocks)
    && (exists first: byte {:trigger RoundTrip.PatchFile(first, |target|, q)} ::
          first / 16 % 8 == 0 && file == RoundTrip.PatchFile(first, |target|, q))
    && (exists ts, pad {:trigger RoundTrip.Compresses(q, ts, pad)} ::
          && RoundTrip.Compresses(q, ts, pad)
          && HeatshrinkSpec.Expand(HeatshrinkSpec.STATIC_CONFIG, [], ts) ==
               Varint.PackSize(0) + RoundTrip.Serialise(h, 0, blocks))
  }

  lemma PreparedApplies(h: PatchSpec.Host, file: seq<byte>, target: seq<byte>, blocks: seq<RoundTrip.Block>,
                        q: seq<byte>)
    requires Prepared(h, file, target, blocks, q)
    ensures PatchSpec.Apply(h, file) == PatchSpec.Outcome(|target|, target)
  {
    var first: byte :| first / 16 % 8 == 0 && file == RoundTrip.PatchFile(first, |target|, q);
    var ts, pad :| RoundTrip.Compresses(q, ts, pad) && HeatshrinkSpec.Expand(HeatshrinkSpec.STATIC_CONFIG, [], ts) ==
      Varint.PackSize(0) + RoundTrip.Serialise(h, 0, blocks);
    RoundTrip.PatchRoundTrip(h, target, blocks, first, q, ts, pad);
  }

  /** Such a patch in the partition succeeds with its target. */
  lemma PreparedPatchSucceeds(l: Layout, mem: seq<byte>, file: seq<byte>, target: seq<byte>,
                              blocks: seq<RoundTrip.Block>,
                              q: seq<byte>)
    requires ValidLayout(l, |mem|) && Holding(l, mem, file) && Prepared(Source(l, mem), file, target, blocks, q)
    ensures Succeeds(l, mem) && Meaning(l, mem, AnnouncedSize(l, mem)) == PatchSpec.Outcome(|target|, target)
  {
    HoldingDue(l, mem, file);
    PreparedApplies(Source(l, mem), file, target, blocks, q);
  }

  /** The compressed data in the file, and the ends of the chunks it is read in. */
  function FileCuts(file: seq<byte>, target: seq<byte>, q: seq<byte>): PatchSlices.Cuts {
    PatchSlices.Cuts(q, 2 + |Varint.PackSize(|target|)|, PatchSlices.ChunkedFeed(file).ends)
  }

  /** Its writes: the slices of the plan, where the plan and the reads of 512 bytes cut them. */
  function PreparedSlices(file: seq<byte>, target: seq<byte>, blocks: seq<RoundTrip.Block>, q: seq<byte>)
    : seq<seq<byte>>
  {
    PatchPlans.PlanPieces(FileCuts(file, target, q), |Varint.PackSize(0)|, blocks)
  }

  lemma PreparedWrites(h: PatchSpec.Host, file: seq<byte>, target: seq<byte>, blocks: seq<RoundTrip.Block>,
                       q: seq<byte>)
    requires Prepared(h, file, target, blocks, q)
    ensures PatchSlices.WriteList(h, PatchSlices.ChunkedFeed(file)) == PreparedSlices(file, target, blocks, q)
  {
    var first: byte :| first / 16 % 8 == 0 && file == RoundTrip.PatchFile(first, |target|, q);
    var c, ws := FileCuts(file, target, q), PreparedSlices(file, target, blocks, q);
    PreparedDecodes(h, file, target, blocks, q);
    PatchPlans.PlanCut(h, PatchSlices.ChunkedFeed(file), target, blocks, first, q, c);
    PatchPlans.JoinPlan(c, |Varint.PackSize(0)|, blocks);
    PatchPlans.UpToFits(h.room, ws);
  }

  lemma PreparedDecodes(h: PatchSpec.Host, file: seq<byte>, target: seq<byte>, blocks: seq<RoundTrip.Block>,
                        q: seq<byte>)
    requires Prepared(h, file, target, blocks, q)
    ensures q != []
    ensures HeatshrinkSpec.Decode(HeatshrinkSpec.STATIC_CONFIG, q) ==
      Varint.PackSize(0) + RoundTrip.Serialise(h, 0, blocks)
  {
    var ts, pad :| RoundTrip.Compresses(q, ts, pad) && HeatshrinkSpec.Expand(HeatshrinkSpec.STATIC_CONFIG, [], ts) ==
      Varint.PackSize(0) + RoundTrip.Serialise(h, 0, blocks);
    RoundTrip.StreamNonEmpty(q, ts, pad);
    RoundTrip.DecodeCompressed(q, ts, pad);
  }

  /** A host can tell from the plan and its compressed data whether the slot will hold the
      target, whatever is in it: exactly if the slices of the plan are harmless. */
  lemma PreparedPatchHolds(l: Layout, mem: seq<byte>, file: seq<byte>, target: seq<byte>, blocks: seq<RoundTrip.Block>,
                           q: seq<byte>, ws: seq<seq<byte>>)
    requires ValidLayout(l, |mem|) && Holding(l, mem, file) && Prepared(Source(l, mem), file, target, blocks, q)
    requires ws == PreparedSlices(file, target, blocks, q)
    ensures Join(ws) == target && AreSlices(ws)
    ensures AlwaysHolds(l, mem) <==> Harmless(Sizes(ws), target)
    ensures Safe(Sizes(ws)) ==> AlwaysHolds(l, mem)
  {
    HoldingDue(l, mem, file);
    PreparedPatchSucceeds(l, mem, file, target, blocks, q);
    PreparedWrites(Source(l, mem), file, target, blocks, q);
    PatchPlans.JoinPlan(FileCuts(file, target, q), |Varint.PackSize(0)|, blocks);
    WritesPossible(l, mem, |file|);
    HarmlessPatch(l, mem);
    SafePatch(l, mem);
  }

  /** When no read ends inside a slice, from the plan alone. */
  lemma AlignedPatchHolds(l: Layout, mem: seq<byte>, file: seq<byte>, target: seq<byte>, blocks: seq<RoundTrip.Block>,
                          q: seq<byte>)
    requires ValidLayout(l, |mem|) && Holding(l, mem, file) && Prepared(Source(l, mem), file, target, blocks, q)
    requires PatchPlans.PlanAligned(FileCuts(file, target, q), |Varint.PackSize(0)|, blocks)
    ensures AlwaysHolds(l, mem) <==> Harmless(Sizes(PatchPlans.PlanWrites(blocks)), target)
    ensures Safe(Sizes(PatchPlans.PlanWrites(blocks))) ==> AlwaysHolds(l, mem)
  {
    PatchPlans.AlignedPlan(FileCuts(file, target, q), |Varint.PackSize(0)|, blocks);
    PreparedPatchHolds(l, mem, file, target, blocks, q, PatchPlans.PlanWrites(blocks));
  }

  /** A file of less than a chunk is aligned. */
  lemma ShortAligned(h: PatchSpec.Host, file: seq<byte>, target: seq<byte>, blocks: seq<RoundTrip.Block>, q: seq<byte>)
    requires Prepared(h, file, target, blocks, q) && |file| < PatchSlices.CHUNK_SIZE
    ensures PatchPlans.PlanAligned(FileCuts(file, target, q), |Varint.PackSize(0)|, blocks)
  {
    var c := FileCuts(file, target, q);
    assert c.ends == {};
    PreparedDecodes(h, file, target, blocks, q);
    assert q[..|q|] == q;
    PatchPlans.OneChunk(c, |Varint.PackSize(0)|, h, 0, blocks);
  }

  /** A block of one kind alone is always stored. */
  lemma OneBlockHolds(l: Layout, mem: seq<byte>, file: seq<byte>, target: seq<byte>, b: RoundTrip.Block, q: seq<byte>)
    requires ValidLayout(l, |mem|) && Holding(l, mem, file) && Prepared(Source(l, mem), file, target, [b], q)
    requires (b.diff == [] || b.extra == []) && |file| < PatchSlices.CHUNK_SIZE
    ensures AlwaysHolds(l, mem)
  {
    ShortAligned(Source(l, mem), file, target, [b], q);
    AlignedPatchHolds(l, mem, file, target, [b], q);
    OneBlockSafe(b);
  }

  lemma OneBlockSafe(b: RoundTrip.Block)
    requires b.diff == [] || b.extra == []
    ensures Safe(Sizes(PatchPlans.PlanWrites([b])))
  {
    var t := if b.diff == [] then b.extra else b.diff;
    var ws := PatchPlans.SlicesOf(t);
    assert [b][1..] == [];
    assert PatchPlans.PlanWrites([b]) == ws;
    SlicesEven(t);
    forall i | 0 <= i < |ws| ensures 1 <= Sizes(ws)[i] <= SLICE && (i < |ws| - 1 ==> Sizes(ws)[i] == SLICE) {
      SizesAt(ws, i);
    }
    FixedSizeSafe(Sizes(ws), SLICE);
  }

  /** All slices but the last have 128 bytes. */
  predicate Even(ws: seq<seq<byte>>) {
    forall i :: 0 <= i < |ws| ==> 1 <= |ws[i]| <= SLICE && (i < |ws| - 1 ==> |ws[i]| == SLICE)
  }

  lemma {:induction false} SlicesEven(t: seq<byte>)
    ensures Even(PatchPlans.SlicesOf(t)) && (t != [] ==> PatchPlans.SlicesOf(t) != [])
    decreases |t|
  {
    if |t| > SLICE {
      SlicesEven(t[SLICE..]);
      EvenCons(t[..SLICE], PatchPlans.SlicesOf(t[SLICE..]));
    }
  }

  lemma EvenCons(w: seq<byte>, ws: seq<seq<byte>>)
    requires |w| == SLICE && Even(ws)
    ensures Even([w] + ws)
  {
  }

  /** A flash of zeros with this patch. */
  lemma WithPatch(l: Layout, deviceSize: nat, file: seq<byte>) returns (mem: seq<byte>)
    requires ValidLayout(l, deviceSize) && 0 < |file| < 0x1_0000_0000 && |file| + HEADER_SIZE <= l.storageSize
    ensures |mem| == deviceSize && Holding(l, mem, file)
    ensures forall i :: 0 <= i < l.secondarySize ==> SlotOf(l, mem)[i] == 0
  {
    var padded := PadPatch(file);
    mem := Filler(l.storageOffset) + padded + Filler(deviceSize - l.storageOffset - |padded|);
    assert mem[l.storageOffset..l.storageOffset + |padded|] == padded;
  }

  // -- calls on them --------------------------------------------------------------------------

  /** A prepared patch: the upgrade is requested, and all of the target was written. */
  method ApplyPrepared(flash: FlashDevice.FlashMem, board: Board, accepted: bool, ghost file: seq<byte>,
                       ghost target: seq<byte>, ghost blocks: seq<RoundTrip.Block>, ghost q: seq<byte>)
    returns (ret: int)
    requires ValidLayout(flash.layout, flash.device.Length) && Holding(flash.layout, flash.device[..], file)
    requires Prepared(Source(flash.layout, flash.device[..]), file, target, blocks, q)
    modifies flash, flash.device, board
    ensures ret == if accepted then 0 else -1
    ensures board.requests == old(board.requests) + 1
    ensures board.reboots == old(board.reboots) + (if accepted then 1 else 0)
    ensures Join(flash.writes) == target && flash.device.Length == |old(flash.device[..])|
    ensures AlwaysHolds(flash.layout, old(flash.device[..])) ==>
      |target| < flash.layout.secondarySize && HasImage(flash.layout, flash.device[..], target)
  {
    ghost var l, mem := flash.layout, flash.device[..];
    HoldingDue(l, mem, file);
    PreparedPatchSucceeds(l, mem, file, target, blocks, q);
    Delta.Written(l, mem, Writes(l, mem, |file|), target);
    SuccessSlot(l, mem);
    ret := CheckAndApply(flash, board, accepted);
    if AlwaysHolds(l, mem) {
      assert SameOutside(l, mem, mem);
    }
  }

  lemma PreparedTruncated(h: PatchSpec.Host, file: seq<byte>, target: seq<byte>, blocks: seq<RoundTrip.Block>,
                          q: seq<byte>, n: nat)
    requires Prepared(h, file, target, blocks, q) && n < |file|
    ensures var o := PatchSpec.Apply(h, file[..n]);
      o.result == (if n < 1 + |Varint.PackSize(|target|)| then -18 else -19) && o.out <= target
  {
    var first: byte :| first / 16 % 8 == 0 && file == RoundTrip.PatchFile(first, |target|, q);
    var ts, pad :| RoundTrip.Compresses(q, ts, pad) && HeatshrinkSpec.Expand(HeatshrinkSpec.STATIC_CONFIG, [], ts) ==
      Varint.PackSize(0) + RoundTrip.Serialise(h, 0, blocks);
    TruncatedPatches.Truncated(h, target, blocks, first, q, ts, pad, n);
  }

  /** A prepared patch that was not stored to its end: no request, and the status says so. */
  method ApplyTruncated(flash: FlashDevice.FlashMem, board: Board, accepted: bool, ghost file: seq<byte>,
                        ghost target: seq<byte>, ghost blocks: seq<RoundTrip.Block>, ghost q: seq<byte>, ghost n: nat)
    returns (ret: int)
    requires ValidLayout(flash.layout, flash.device.Length) && n < |file|
    requires Holding(flash.layout, flash.device[..], file[..n])
    requires Prepared(Source(flash.layout, flash.device[..]), file, target, blocks, q)
    modifies flash, flash.device, board
    ensures ret == if n < 1 + |Varint.PackSize(|target|)| then -18 else -19
    ensures board.requests == old(board.requests) && board.reboots == old(board.reboots)
  {
    ghost var l, mem := flash.layout, flash.device[..];
    HoldingDue(l, mem, file[..n]);
    PreparedTruncated(Source(l, mem), file, target, blocks, q, n);
    ret := CheckAndApply(flash, board, accepted);
  }

  /** A patch of this size is announced, and what can be read of it is the begin of the file. */
  predicate Beginning(l: Layout, mem: seq<byte>, file: seq<byte>)
    requires ValidLayout(l, |mem|)
  {
    && Due(l, mem) && AnnouncedSize(l, mem) == |file| && !Reachable(l, |mem|, |file|)
    && ReadablePatch(l, mem, |file|) <= file
  }

  lemma BeginningUnread(l: Layout, mem: seq<byte>, file: seq<byte>, target: seq<byte>, blocks: seq<RoundTrip.Block>,
                        q: seq<byte>)
    requires ValidLayout(l, |mem|) && Beginning(l, mem, file) && Prepared(Source(l, mem), file, target, blocks, q)
    ensures Unread(l, mem, |file|) == -10
  {
    var p := ReadablePatch(l, mem, |file|);
    if p != [] {
      ReadableChunks(l, |mem|, |file|);
      SamplePatches.PackLength(|target|);
      PreparedTruncated(Source(l, mem), file, target, blocks, q, |p|);
      assert p == file[..|p|];
      PatchHalts.OfferedWhole(Source(l, mem), PatchSlices.ChunkedFeed(p));
    }
  }

  lemma ReadableChunks(l: Layout, deviceSize: nat, size: nat)
    requires ValidLayout(l, deviceSize) && !Reachable(l, deviceSize, size)
    ensures var n := ReadableSize(l, deviceSize, size, PatchSlices.CHUNK_SIZE);
      (n > 0 ==> n >= 512) && (size > 0 ==> n < size)
  {
    var n := ReadableSize(l, deviceSize, size, PatchSlices.CHUNK_SIZE);
    if n > 0 {
      AtLeastOne(n, PatchSlices.CHUNK_SIZE);
    }
  }

  /** A prepared patch whose end cannot be read: the read error is the status. */
  method ApplyUnreadable(flash: FlashDevice.FlashMem, board: Board, accepted: bool, ghost file: seq<byte>,
                         ghost target: seq<byte>, ghost blocks: seq<RoundTrip.Block>, ghost q: seq<byte>)
    returns (ret: int)
    requires ValidLayout(flash.layout, flash.device.Length) && Beginning(flash.layout, flash.device[..], file)
    requires Prepared(Source(flash.layout, flash.device[..]), file, target, blocks, q)
    modifies flash, flash.device, board
    ensures ret == -10 && board.requests == old(board.requests) && board.reboots == old(board.reboots)
  {
    BeginningUnread(flash.layout, flash.device[..], file, target, blocks, q);
    ret := CheckAndApply(flash, board, accepted);
  }

  // -- a patch that is not stored -----------------------------------------------------------

  /** Two extra blocks, of 4095 and 4222 ones. */
  function Irregular(): (x: SamplePatches.Twin)
    ensures SamplePatches.Good(x)
  {
    SamplePatches.Twin(Ones(128), 31, 32)
  }

  function Ones(n: nat): (s: seq<byte>)
    ensures |s| == n && AllOnes(s)
  {
    if n == 0 then [] else [PROBE] + Ones(n - 1)
  }

  predicate AllOnes(s: seq<byte>) {
    forall i :: 0 <= i < |s| ==> s[i] == PROBE
  }

  /** It is applied without an error and the upgrade is requested, but in a slot of zeros
      the image comes out wrong. */
  lemma IrregularFails(l: Layout, mem: seq<byte>, x: SamplePatches.Twin)
    requires x == Irregular() && l.secondarySize > 8317
    requires ValidLayout(l, |mem|) && Holding(l, mem, SamplePatches.File(x))
    requires forall i :: 0 <= i < l.secondarySize ==> SlotOf(l, mem)[i] == 0
    ensures Succeeds(l, mem) && !HoldsTarget(l, mem)
  {
    var h, out := Source(l, mem), SamplePatches.FirstData(x) + SamplePatches.SecondData(x);
    HoldingDue(l, mem, SamplePatches.File(x));
    SourceSeeks(l, mem);
    SamplePatches.TwinWrites(h, x);
    SamplePatches.TwinApplies(h, x);
    SuccessSlot(l, mem);
    TwinJoin(x, l.secondarySize);
    IrregularSizes(x, PatchPlans.PlanWrites(SamplePatches.Plan(x)));
    NotHeld(l, |mem|, SlotOf(l, mem), PatchPlans.PlanWrites(SamplePatches.Plan(x)), out);
  }

  /** There is such a flash, for every flash map with room for the patch. */
  lemma SomeSlotFails(l: Layout, deviceSize: nat) returns (mem: seq<byte>)
    requires ValidLayout(l, deviceSize) && l.secondarySize > 8317 && l.storageSize >= 304
    ensures |mem| == deviceSize && Succeeds(l, mem) && !HoldsTarget(l, mem)
  {
    var x := Irregular();
    SamplePatches.FileSize(x);
    mem := WithPatch(l, deviceSize, SamplePatches.File(x));
    IrregularFails(l, mem, x);
  }

  lemma TwinJoin(x: SamplePatches.Twin, room: nat)
    requires SamplePatches.Good(x) && SamplePatches.TargetSize(x) < room
    ensures var ws := PatchPlans.PlanWrites(SamplePatches.Plan(x));
      PatchPlans.UpTo(room, ws) == ws && Join(ws) == SamplePatches.FirstData(x) + SamplePatches.SecondData(x)
  {
    var first, second := SamplePatches.FirstData(x), SamplePatches.SecondData(x);
    SamplePatches.TwinSlices(x);
    PatchPlans.JoinSlices(first);
    PatchPlans.JoinSlices(second);
    PatchPlans.JoinConcat(PatchPlans.SlicesOf(first), PatchPlans.SlicesOf(second));
    PatchPlans.UpToFits(room, PatchPlans.PlanWrites(SamplePatches.Plan(x)));
  }

  lemma IrregularSizes(x: SamplePatches.Twin, ws: seq<seq<byte>>)
    requires SamplePatches.Good(x) && x.m == 31 && x.n == x.m + 1 && AllOnes(x.v)
    requires ws == PatchPlans.PlanWrites(SamplePatches.Plan(x))
    ensures !Safe(Sizes(ws)) && SmallWrites(Sizes(ws))
    ensures AllOnes(SamplePatches.FirstData(x) + SamplePatches.SecondData(x))
  {
    SamplePatches.TwinSizes(x);
    IrregularUnsafe(Sizes(ws), x.m);
    FullSlices(x.m);
    FullSlices(x.n);
    OnesRepeated(x.v, x.m);
    OnesRepeated(SamplePatches.Turned(x.v), x.n);
  }

  lemma {:induction false} OnesRepeated(v: seq<byte>, k: nat)
    requires AllOnes(v)
    ensures AllOnes(Encoding.Repeated(v, k))
  {
    if k > 0 {
      OnesRepeated(v, k - 1);
    }
  }

  /** Unsafe writes of ones do not come out right on zeros. */
  lemma NotHeld(l: Layout, deviceSize: nat, was: seq<byte>, ws: seq<seq<byte>>, out: seq<byte>)
    requires ValidLayout(l, deviceSize) && |was| == l.secondarySize && |out| < l.secondarySize
    requires forall i :: 0 <= i < |was| ==> was[i] == 0
    requires !Safe(Sizes(ws)) && SmallWrites(Sizes(ws)) && out == Join(ws) && AllOnes(out)
    ensures !Holds(Sizes(ws), was, out)
  {
    var zeros: seq<byte> := Filler(deviceSize);
    var x := UnsafeLoses(l, zeros, ws);
    assert SlotOf(l, zeros) == was;
    StoredExact(l, zeros, ws);
    if Stored(l, zeros, ws) {
      StoredAt(l, zeros, ws, x);
    }
  }

  // -- a patch that announces itself again -------------------------------------------------------

  /** Where a partition has room for a patch that fills the slot. */
  predicate RoomForPatch(l: Layout) {
    l.secondarySize < 0x800_0000 && l.storageSize >= l.secondarySize / 64 + 178
  }

  /** It fills the slot but for one byte with its first block, and then writes the magic
      word where the header is. */
  function Reviving(l: Layout): (x: SamplePatches.Twin)
    requires l.secondarySize > 0 && l.secondarySize % PAGE_SIZE == 0 && l.storageOffset >= FlashEnd(l)
    requires l.storageOffset < FlashEnd(l) + HEADER_GAP
    ensures |x.v| == SLICE && SamplePatches.Turned(x.v) == Carrier(l.storageOffset - FlashEnd(l))
    ensures x.m == l.secondarySize / SLICE - 1 && x.m >= 1 && x.n == 1
    ensures SLICE * x.m == l.secondarySize - SLICE
  {
    var w := Carrier(l.storageOffset - FlashEnd(l));
    var v := w[1..] + w[..1];
    assert v[127..] + v[..127] == w;
    SamplePatches.Twin(v, l.secondarySize / SLICE - 1, 1)
  }

  lemma PatchRevives(l: Layout, mem: seq<byte>, x: SamplePatches.Twin)
    requires ValidLayout(l, |mem|) && |mem| % PAGE_SIZE == 0 && l.storageOffset < FlashEnd(l) + HEADER_GAP
    requires x == Reviving(l) && SamplePatches.Good(x) && Holding(l, mem, SamplePatches.File(x))
    ensures |AfterCall(l, mem)| == |mem| && Announced(l, AfterCall(l, mem))
  {
    var file, h, first := SamplePatches.File(x), Source(l, mem), SamplePatches.FirstData(x);
    var short, w := PatchPlans.SlicesOf(first), SamplePatches.Turned(x.v);
    HoldingDue(l, mem, file);
    SourceSeeks(l, mem);
    SamplePatches.TwinWrites(h, x);
    SamplePatches.TwinOverflow(x, l.secondarySize);
    assert Writes(l, mem, |file|) == short + [w];
    SamplePatches.SizesOfSlices(first, x.m, 127);
    NoGapLoses(l, Cleared(l, mem), short, w, x.m);
  }

  /** So the gap is exactly what delta_check_and_apply needs, on a flash of whole pages:
      no patch, prepared or not, announces itself again. */
  lemma GapExact(l: Layout, deviceSize: nat)
    requires ValidLayout(l, deviceSize) && deviceSize % PAGE_SIZE == 0 && RoomForPatch(l)
    ensures (forall mem: seq<byte> :: |mem| == deviceSize ==>
               |AfterCall(l, mem)| == |mem| && !Announced(l, AfterCall(l, mem)))
      <==> l.storageOffset >= FlashEnd(l) + HEADER_GAP
  {
    if l.storageOffset >= FlashEnd(l) + HEADER_GAP {
      forall mem: seq<byte> | |mem| == deviceSize
        ensures |AfterCall(l, mem)| == |mem| && !Announced(l, AfterCall(l, mem))
      {
        HeaderGone(l, mem);
      }
    } else {
      var x := Reviving(l);
      SamplePatches.FileSize(x);
      var mem := WithPatch(l, deviceSize, SamplePatches.File(x));
      PatchRevives(l, mem, x);
    }
  }
}
