/** delta.c: a patch announced in the storage partition is applied once, and the
    bootloader is asked for the new image only after a run that has written it all. */
module Delta {
  import opened Bytes
  import opened FlashSpec
  import opened EraseAhead
  import opened SlotContents
  import opened PatchHeader
  import opened FlashDevice
  import PatchSpec
  import PatchFacts
  import PatchSlices
  import PatchHalts
  import Applying

  /** What boot_request_upgrade and sys_reboot have been asked for, and how often the
      patcher was run. */
  class Board {
    var requests: nat
    var reboots: nat
    ghost var runs: nat

    constructor ()
      ensures requests == 0 && reboots == 0 && runs == 0
    {
      requests, reboots, runs := 0, 0, 0;
    }
  }

  /** The part of the announced patch that the read callback gets to. */
  function ReadablePatch(l: Layout, mem: seq<byte>, size: nat): (p: seq<byte>)
    requires ValidLayout(l, |mem|)
    ensures Reachable(l, |mem|, size) ==> |p| == size
  {
    var begin := l.storageOffset + HEADER_SIZE;
    mem[begin..begin + ReadableSize(l, |mem|, size, PatchSlices.CHUNK_SIZE)]
  }

  /** The running image, as the callbacks present it. */
  function Source(l: Layout, mem: seq<byte>): PatchSpec.Host
    requires ValidLayout(l, |mem|)
  {
    PatchSpec.Host(mem[..l.primaryOffset + l.primarySize], l.primaryOffset, l.secondarySize)
  }

  /** The meaning of a patch of this size in the storage partition. */
  function Meaning(l: Layout, mem: seq<byte>, size: nat): PatchSpec.Outcome
    requires ValidLayout(l, |mem|)
  {
    PatchSpec.Apply(Source(l, mem), ReadablePatch(l, mem, size))
  }

  /** Every write that the run over it makes. */
  function Writes(l: Layout, mem: seq<byte>, size: nat): seq<seq<byte>>
    requires ValidLayout(l, |mem|)
  {
    PatchSlices.WriteList(Source(l, mem), PatchSlices.ChunkedFeed(ReadablePatch(l, mem, size)))
  }

  /** The status when the end of it cannot be read. */
  function Unread(l: Layout, mem: seq<byte>, size: nat): int
    requires ValidLayout(l, |mem|)
  {
    PatchHalts.Unread(Source(l, mem), PatchSlices.ChunkedFeed(ReadablePatch(l, mem, size)))
  }

  lemma WritesPossible(l: Layout, mem: seq<byte>, size: nat)
    requires ValidLayout(l, |mem|)
    ensures Possible(l, Writes(l, mem, size))
  {
    PatchSlices.WritesInRoom(Source(l, mem), PatchSlices.ChunkedFeed(ReadablePatch(l, mem, size)));
  }

  lemma HeaderParts(mem: seq<byte>, at: nat, header: seq<byte>)
    requires at + HEADER_SIZE <= |mem| && header == mem[at..at + HEADER_SIZE]
    ensures header[..4] == mem[at..at + 4] && header[4..] == mem[at + 4..at + 8]
  {
  }

  /** delta_read_patch_header: the size of the announced patch, and zero without one.
      The announcement is cleared. */
  method ReadPatchHeader(flash: FlashMem) returns (ret: int, size: nat)
    requires ValidLayout(flash.layout, flash.device.Length)
    modifies flash.device
    ensures ret == DELTA_OK
    ensures var l, mem := flash.layout, old(flash.device[..]);
      if Announced(l, mem) then size == AnnouncedSize(l, mem) && flash.device[..] == Cleared(l, mem)
      else size == 0 && flash.device[..] == mem
  {
    size := 0;
    var at := flash.layout.storageOffset;
    var ok, header := flash.FlashRead(at, HEADER_SIZE);
    if !ok {
      return PATCH_HEADER_ERROR, size;
    }
    HeaderParts(flash.device[..], at, header);
    AnnouncedWord(flash.layout, flash.device[..]);
    if Word(header[..4]) != NEW_PATCH {
      return DELTA_OK, size;
    }
    size := Word(header[4..]);
    ok := flash.FlashWrite(at, ZERO_WORD);
    if !ok {
      return PATCH_HEADER_ERROR, size;
    }
    ret := DELTA_OK;
  }

  /** Clearing the header leaves the image, the slot and the patch alone. */
  lemma ClearedSame(l: Layout, mem: seq<byte>, cleared: seq<byte>, size: nat)
    requires ValidLayout(l, |mem|) && cleared == Cleared(l, mem)
    ensures IsCleared(l, cleared) && Source(l, cleared) == Source(l, mem) && SlotOf(l, cleared) == SlotOf(l, mem)
    ensures ReadablePatch(l, cleared, size) == ReadablePatch(l, mem, size)
  {
    ClearedEffect(l, mem);
    assert cleared[..l.primaryOffset + l.primarySize] == mem[..l.primaryOffset + l.primarySize];
    assert SlotOf(l, cleared) == SlotOf(l, mem);
    assert ReadablePatch(l, cleared, size) == ReadablePatch(l, mem, size);
  }

  lemma Shorter(a: seq<byte>, a': seq<byte>, b: seq<byte>, b': seq<byte>)
    requires a == b && a' <= a && b' <= b && |a'| == |b'|
    ensures a' == b'
  {
  }

  lemma FeedOfPatch(l: Layout, mem: seq<byte>, size: nat, origin: seq<byte>, feed: PatchSlices.Feed)
    requires ValidLayout(l, |mem|) && origin == mem && feed == PatchSlices.ChunkedFeed(ReadablePatch(l, mem, size))
    ensures var n := ReadableSize(l, |origin|, size, PatchSlices.CHUNK_SIZE);
      var begin := l.storageOffset + HEADER_SIZE;
      begin + n <= |origin| && feed == PatchSlices.ChunkedFeed(origin[begin..begin + n])
  {
  }

  /** delta_init and the patcher: the flash afterwards is a function of the flash before. */
  method RunPatch(flash: FlashMem, size: nat) returns (ret: int)
    requires ValidLayout(flash.layout, flash.device.Length)
    modifies flash, flash.device
    ensures flash.Valid()
    ensures var l, mem := flash.layout, old(flash.device[..]);
      && flash.writes == Writes(l, mem, size)
      && flash.device[..] == AfterRun(l, mem, Writes(l, mem, size))
      && flash.toCurrent == PenAfter(l, Begin(l, mem), Writes(l, mem, size)).pos
    ensures var l, mem := flash.layout, old(flash.device[..]);
      if Reachable(l, |mem|, size) then ret == Meaning(l, mem, size).result
      else ret < 0 && ret == Unread(l, mem, size)
  {
    ret := flash.Init();
    if ret != DELTA_OK {
      return;
    }
    ghost var l, mem := flash.layout, old(flash.device[..]);
    Shorter(flash.device[..l.secondaryOffset], flash.device[..flash.fromEnd],
            mem[..l.secondaryOffset], mem[..flash.fromEnd]);
    ghost var feed := PatchSlices.ChunkedFeed(ReadablePatch(l, mem, size));
    FeedOfPatch(l, mem, size, flash.origin, feed);
    PatchHalts.UnreadNegative(Source(l, mem), feed);
    ret := Applying.ApplyPatchCallbacks(flash, size, Source(l, mem), feed);
  }

  /** The slot begins with these bytes. */
  predicate HasImage(l: Layout, mem: seq<byte>, out: seq<byte>)
    requires ValidLayout(l, |mem|) && |out| <= l.secondarySize
  {
    mem[l.secondaryOffset..l.secondaryOffset + |out|] == out
  }

  /** What a run whose output fits the slot leaves: a cleared header, and in the slot
      what the sizes of the writes make of the output. */
  lemma RunLeaves(l: Layout, mem: seq<byte>, ws: seq<seq<byte>>, out: seq<byte>, after: seq<byte>)
    requires ValidLayout(l, |mem|) && out == Join(ws) && |out| < l.secondarySize && after == AfterRun(l, mem, ws)
    ensures |after| == |mem| && (IsCleared(l, mem) ==> !Announced(l, after))
    ensures HasImage(l, after, out) <==> Holds(Sizes(ws), SlotOf(l, mem), out)
  {
    RunEffect(l, mem, ws);
    StoredExact(l, mem, ws);
    if IsCleared(l, mem) {
      NotMagic(l, mem, after);
    }
  }

  lemma NotMagic(l: Layout, mem: seq<byte>, after: seq<byte>)
    requires ValidLayout(l, |mem|) && IsCleared(l, mem) && |after| == |mem|
    requires after[l.storageOffset] == mem[l.storageOffset]
    ensures !Announced(l, after)
  {
    assert after[l.storageOffset..l.storageOffset + 4][0] == 0;
  }

  lemma {:induction false} SlicesSmall(ws: seq<seq<byte>>)
    requires AreSlices(ws)
    ensures SmallWrites(Sizes(ws))
  {
    if ws != [] {
      SlicesSmall(ws[..|ws| - 1]);
    }
  }

  /** A patch is announced, and would be run. */
  predicate Due(l: Layout, mem: seq<byte>)
    requires ValidLayout(l, |mem|)
  {
    Announced(l, mem) && AnnouncedSize(l, mem) > 0
  }

  /** The announced patch writes a whole target. */
  predicate Succeeds(l: Layout, mem: seq<byte>)
    requires ValidLayout(l, |mem|)
  {
    Due(l, mem) && Reachable(l, |mem|, AnnouncedSize(l, mem)) && Meaning(l, mem, AnnouncedSize(l, mem)).result > 0
  }

  /** The flash after the call. */
  function AfterCall(l: Layout, mem: seq<byte>): seq<byte>
    requires ValidLayout(l, |mem|)
  {
    if !Announced(l, mem) then mem
    else if AnnouncedSize(l, mem) == 0 then Cleared(l, mem)
    else AfterRun(l, Cleared(l, mem), Writes(l, mem, AnnouncedSize(l, mem)))
  }

  /** delta_check_and_apply. `accepted` is what boot_request_upgrade answers. The upgrade
      is requested exactly after a patch whose status is positive, and every other
      status is returned as it is. */
  method CheckAndApply(flash: FlashMem, board: Board, accepted: bool) returns (ret: int)
    requires ValidLayout(flash.layout, flash.device.Length)
    modifies flash, flash.device, board
    ensures var l, mem := flash.layout, old(flash.device[..]);
      var size := AnnouncedSize(l, mem);
      var due, readable := Announced(l, mem) && size > 0, Reachable(l, |mem|, size);
      var result := PatchSpec.Apply(Source(l, mem), ReadablePatch(l, mem, size)).result;
      && ret == (if !due then 0 else if !readable then Unread(l, mem, size)
                 else if result <= 0 then result else if accepted then 0 else -1)
      && board.runs == old(board.runs) + (if due then 1 else 0)
      && board.requests == old(board.requests) + (if due && readable && result > 0 then 1 else 0)
      && board.reboots == old(board.reboots) + (if due && readable && result > 0 && accepted then 1 else 0)
    // the flash afterwards is a function of the flash before
    ensures flash.device[..] == AfterCall(flash.layout, old(flash.device[..]))
    ensures !Due(flash.layout, old(flash.device[..])) ==> flash.writes == old(flash.writes)
    ensures Due(flash.layout, old(flash.device[..])) ==>
      var l, mem := flash.layout, old(flash.device[..]);
      var ws := Writes(l, mem, AnnouncedSize(l, mem));
      flash.writes == ws && flash.toCurrent == PenAfter(l, Begin(l, Cleared(l, mem)), ws).pos
    // a request means that the patch announces a target, and that all of it was written
    ensures board.requests > old(board.requests) ==>
      var l, mem := flash.layout, old(flash.device[..]);
      Complete(l, mem, ReadablePatch(l, mem, AnnouncedSize(l, mem)), Join(flash.writes))
  {
    ghost var l, mem := flash.layout, old(flash.device[..]);
    var size;
    ret, size := ReadPatchHeader(flash);
    if ret < 0 {
      return;
    } else if size > 0 {
      ClearedSame(l, mem, flash.device[..], size);
      board.runs := board.runs + 1;
      ret := RunPatch(flash, size);
      if ret <= 0 {
        return;
      }
      RequestMeans(l, mem);
      ret := Upgrade(board, accepted);
      return;
    }
    ret := DELTA_OK;
  }

  /** The patch in the storage partition is of this size; its header announces a target,
      and `out` is as long. */
  predicate Complete(l: Layout, mem: seq<byte>, patch: seq<byte>, out: seq<byte>)
    requires ValidLayout(l, |mem|)
  {
    var header := PatchSpec.Header(patch);
    && mem[l.storageOffset..l.storageOffset + 4] == [0x4E, 0x45, 0x57, 0x50]
    && Reachable(l, |mem|, |patch|) && |patch| == AnnouncedSize(l, mem)
    && header.HeaderOk? && header.toSize > 0
    && (l.secondarySize <= PatchFacts.MAX_ROOM ==> |out| == header.toSize)
  }

  lemma RequestMeans(l: Layout, mem: seq<byte>)
    requires ValidLayout(l, |mem|) && Succeeds(l, mem)
    ensures var size := AnnouncedSize(l, mem);
      Complete(l, mem, ReadablePatch(l, mem, size), Join(Writes(l, mem, size)))
  {
    var size := AnnouncedSize(l, mem);
    var h, patch := Source(l, mem), ReadablePatch(l, mem, size);
    PatchFacts.SuccessHeader(h, patch);
    PatchSlices.JoinWrites(h, PatchSlices.ChunkedFeed(patch));
    if h.room <= PatchFacts.MAX_ROOM {
      PatchFacts.SuccessAccounting(h, patch);
    }
  }

  /** boot_request_upgrade, and sys_reboot if it is granted. */
  method Upgrade(board: Board, accepted: bool) returns (ret: int)
    modifies board
    ensures ret == if accepted then DELTA_OK else -1
    ensures board.requests == old(board.requests) + 1 && board.runs == old(board.runs)
    ensures board.reboots == old(board.reboots) + (if accepted then 1 else 0)
  {
    board.requests := board.requests + 1;
    if !accepted {
      return -1;
    }
    board.reboots := board.reboots + 1;
    ret := DELTA_OK;
  }

  // -- what a call leaves ---------------------------------------------------------------

  lemma Written(l: Layout, mem: seq<byte>, ws: seq<seq<byte>>, out: seq<byte>)
    requires ValidLayout(l, |mem|) && Succeeds(l, mem)
    requires var size := AnnouncedSize(l, mem); ws == Writes(l, mem, size) && out == Meaning(l, mem, size).out
    ensures Join(ws) == out && |out| < l.secondarySize && Possible(l, ws)
  {
    var size := AnnouncedSize(l, mem);
    PatchSlices.JoinWrites(Source(l, mem), PatchSlices.ChunkedFeed(ReadablePatch(l, mem, size)));
    PatchFacts.OutputFits(Source(l, mem), ReadablePatch(l, mem, size));
    WritesPossible(l, mem, size);
  }

  /** After a success the slot holds the target exactly if the sizes of the patch's
      writes allow it on what the slot held before. */
  lemma SuccessSlot(l: Layout, mem: seq<byte>)
    requires ValidLayout(l, |mem|) && Succeeds(l, mem)
    ensures var size := AnnouncedSize(l, mem);
      var out := Meaning(l, mem, size).out;
      && |out| < l.secondarySize && |AfterCall(l, mem)| == |mem| && !Announced(l, AfterCall(l, mem))
      && (HasImage(l, AfterCall(l, mem), out) <==> Holds(Sizes(Writes(l, mem, size)), SlotOf(l, mem), out))
  {
    var size := AnnouncedSize(l, mem);
    var ws, out := Writes(l, mem, size), Meaning(l, mem, size).out;
    Written(l, mem, ws, out);
    ClearedSame(l, mem, Cleared(l, mem), size);
    RunLeaves(l, Cleared(l, mem), ws, out, AfterCall(l, mem));
  }

  /** The same flash but for the slot. */
  predicate SameOutside(l: Layout, mem: seq<byte>, other: seq<byte>)
    requires ValidLayout(l, |mem|)
  {
    && |other| == |mem| && other[..l.secondaryOffset] == mem[..l.secondaryOffset]
    && other[FlashEnd(l)..] == mem[FlashEnd(l)..]
  }

  lemma OutsideOnly(l: Layout, mem: seq<byte>, other: seq<byte>)
    requires ValidLayout(l, |mem|) && SameOutside(l, mem, other)
    ensures Announced(l, other) == Announced(l, mem) && AnnouncedSize(l, other) == AnnouncedSize(l, mem)
    ensures Source(l, other) == Source(l, mem)
    ensures forall size: nat :: ReadablePatch(l, other, size) == ReadablePatch(l, mem, size)
  {
    var at := l.storageOffset;
    SameFrom(mem, other, FlashEnd(l), at, at + 4);
    SameFrom(mem, other, FlashEnd(l), at + 4, at + 8);
    Shorter(mem[..l.secondaryOffset], mem[..l.primaryOffset + l.primarySize],
            other[..l.secondaryOffset], other[..l.primaryOffset + l.primarySize]);
    forall size: nat ensures ReadablePatch(l, other, size) == ReadablePatch(l, mem, size) {
      var n := ReadableSize(l, |mem|, size, PatchSlices.CHUNK_SIZE);
      SameFrom(mem, other, FlashEnd(l), at + HEADER_SIZE, at + HEADER_SIZE + n);
    }
  }

  lemma SameFrom(x: seq<byte>, y: seq<byte>, from: nat, a: nat, b: nat)
    requires from <= a <= b <= |x| && |x| == |y| && x[from..] == y[from..]
    ensures x[a..b] == y[a..b]
  {
    forall i | a <= i < b ensures x[i] == y[i] {
      assert x[from..][i - from] == y[from..][i - from];
    }
  }

  /** The slot holds the target after the call. */
  predicate HoldsTarget(l: Layout, mem: seq<byte>)
    requires ValidLayout(l, |mem|) && Succeeds(l, mem)
  {
    SuccessSlot(l, mem);
    HasImage(l, AfterCall(l, mem), Meaning(l, mem, AnnouncedSize(l, mem)).out)
  }

  /** The call succeeds and the slot holds the target, whatever the slot held before. */
  ghost predicate AlwaysHolds(l: Layout, mem: seq<byte>)
    requires ValidLayout(l, |mem|)
  {
    forall other: seq<byte> :: SameOutside(l, mem, other) ==> Succeeds(l, other) && HoldsTarget(l, other)
  }

  /** A patch that succeeds is safe to apply, whatever the slot held before, exactly
      if its writes are harmless. That can be computed from the patch and the source. */
  lemma HarmlessPatch(l: Layout, mem: seq<byte>)
    requires ValidLayout(l, |mem|) && Succeeds(l, mem)
    ensures var size := AnnouncedSize(l, mem);
      Harmless(Sizes(Writes(l, mem, size)), Meaning(l, mem, size).out) <==> AlwaysHolds(l, mem)
  {
    var size := AnnouncedSize(l, mem);
    var ws, out := Writes(l, mem, size), Meaning(l, mem, size).out;
    Written(l, mem, ws, out);
    HarmlessExact(l, mem, ws);
    if Harmless(Sizes(ws), out) {
      forall other: seq<byte> | SameOutside(l, mem, other) ensures Succeeds(l, other) && HoldsTarget(l, other) {
        OnOther(l, mem, other, ws, out);
      }
    } else {
      var was: seq<byte> :| |was| == l.secondarySize && !Holds(Sizes(ws), was, out);
      var other := WithSlot(l, mem, was);
      OnOther(l, mem, other, ws, out);
    }
  }

  lemma OnOther(l: Layout, mem: seq<byte>, other: seq<byte>, ws: seq<seq<byte>>, out: seq<byte>)
    requires ValidLayout(l, |mem|) && Succeeds(l, mem) && SameOutside(l, mem, other) && |out| < l.secondarySize
    requires var size := AnnouncedSize(l, mem); ws == Writes(l, mem, size) && out == Meaning(l, mem, size).out
    ensures Succeeds(l, other) && (HoldsTarget(l, other) <==> Holds(Sizes(ws), SlotOf(l, other), out))
  {
    OutsideOnly(l, mem, other);
    SuccessSlot(l, other);
  }

  lemma WithSlot(l: Layout, mem: seq<byte>, was: seq<byte>) returns (other: seq<byte>)
    requires ValidLayout(l, |mem|) && |was| == l.secondarySize
    ensures SameOutside(l, mem, other) && SlotOf(l, other) == was
  {
    other := mem[..l.secondaryOffset] + was + mem[FlashEnd(l)..];
  }

  /** Safe write sizes are harmless for every image. */
  lemma SafePatch(l: Layout, mem: seq<byte>)
    requires ValidLayout(l, |mem|) && Succeeds(l, mem)
    ensures Safe(Sizes(Writes(l, mem, AnnouncedSize(l, mem)))) ==> AlwaysHolds(l, mem)
  {
    var size := AnnouncedSize(l, mem);
    var ws := Writes(l, mem, size);
    Written(l, mem, ws, Meaning(l, mem, size).out);
    SlicesSmall(ws);
    if Safe(Sizes(ws)) {
      SafeHarmless(l, mem, ws);
      HarmlessPatch(l, mem);
    }
  }

  /** The announcement does not survive a call, if the gap keeps the header away from
      the slot. */
  lemma HeaderGone(l: Layout, mem: seq<byte>)
    requires ValidLayout(l, |mem|) && l.storageOffset >= FlashEnd(l) + HEADER_GAP
    ensures |AfterCall(l, mem)| == |mem| && !Announced(l, AfterCall(l, mem))
  {
    if Announced(l, mem) {
      ClearedEffect(l, mem);
      if AnnouncedSize(l, mem) > 0 {
        WritesPossible(l, mem, AnnouncedSize(l, mem));
        GapKeeps(l, Cleared(l, mem), Writes(l, mem, AnnouncedSize(l, mem)));
      } else {
        NotMagic(l, Cleared(l, mem), Cleared(l, mem));
      }
    }
  }

  // -- repeated calls --------------------------------------------------------------------

  /** The flash when everything but the storage partition has been rewritten. */
  function Rewritten(l: Layout, mem: seq<byte>, world: seq<byte>): (r: seq<byte>)
    requires ValidLayout(l, |mem|) && |world| == |mem|
    ensures |r| == |mem|
    ensures r[l.storageOffset..l.storageOffset + l.storageSize] == mem[l.storageOffset..l.storageOffset + l.storageSize]
    ensures r[..l.storageOffset] == world[..l.storageOffset]
    ensures r[l.storageOffset + l.storageSize..] == world[l.storageOffset + l.storageSize..]
  {
    seq(|mem|, i requires 0 <= i < |mem| =>
      if l.storageOffset <= i < l.storageOffset + l.storageSize then mem[i] else world[i])
  }

  /** Between two calls the bootloader swaps the slots, and anything else may happen to
      the flash outside the storage partition. */
  method Rewrite(flash: FlashMem, world: seq<byte>)
    requires ValidLayout(flash.layout, flash.device.Length) && |world| == flash.device.Length
    modifies flash.device
    ensures flash.device[..] == Rewritten(flash.layout, old(flash.device[..]), world)
  {
    var l := flash.layout;
    forall i | 0 <= i < flash.device.Length && !(l.storageOffset <= i < l.storageOffset + l.storageSize) {
      flash.device[i] := world[i];
    }
  }

  lemma RewrittenSame(l: Layout, mem: seq<byte>, world: seq<byte>)
    requires ValidLayout(l, |mem|) && |world| == |mem|
    ensures var r := Rewritten(l, mem, world);
      Announced(l, r) == Announced(l, mem) && AnnouncedSize(l, r) == AnnouncedSize(l, mem)
  {
    var r, at := Rewritten(l, mem, world), l.storageOffset;
    assert r[at..at + 4] == mem[at..at + 4] && r[at + 4..at + 8] == mem[at + 4..at + 8];
  }

  /** One call, after the rest of the flash was rewritten. */
  method CallAgain(flash: FlashMem, board: Board, world: seq<byte>, accepted: bool)
    requires ValidLayout(flash.layout, flash.device.Length) && |world| == flash.device.Length
    requires flash.layout.storageOffset >= FlashEnd(flash.layout) + HEADER_GAP
    modifies flash, flash.device, board
    ensures !Announced(flash.layout, flash.device[..])
    ensures var l, now := flash.layout, Rewritten(flash.layout, old(flash.device[..]), world);
      && board.runs == old(board.runs) + (if Due(l, old(flash.device[..])) then 1 else 0)
      && board.requests == old(board.requests) + (if Succeeds(l, now) then 1 else 0)
      && (!Announced(l, old(flash.device[..])) ==> flash.device[..] == now && flash.writes == old(flash.writes))
  {
    ghost var l, mem := flash.layout, old(flash.device[..]);
    ghost var now := Rewritten(l, mem, world);
    Rewrite(flash, world);
    RewrittenSame(l, mem, world);
    var ret := CheckAndApply(flash, board, accepted);
    HeaderGone(l, now);
  }

  /** At most once: however often delta_check_and_apply is called, whatever the
      bootloader answers, and whatever happens in between to the rest of the flash, the
      patcher is run by the first call or not at all. */
  method CheckRepeatedly(flash: FlashMem, board: Board, answers: seq<bool>, worlds: seq<seq<byte>>)
    requires ValidLayout(flash.layout, flash.device.Length)
    requires flash.layout.storageOffset >= FlashEnd(flash.layout) + HEADER_GAP
    requires |worlds| == |answers| && forall i :: 0 <= i < |worlds| ==> |worlds[i]| == flash.device.Length
    modifies flash, flash.device, board
    ensures if answers == [] then board.runs == old(board.runs) && board.requests == old(board.requests) else
      var l, mem := flash.layout, old(flash.device[..]);
      && !Announced(l, flash.device[..])
      && board.runs == old(board.runs) + (if Due(l, mem) then 1 else 0)
      && board.requests == old(board.requests) + (if Succeeds(l, Rewritten(l, mem, worlds[0])) then 1 else 0)
  {
    if answers == [] {
      return;
    }
    CallAgain(flash, board, worlds[0], answers[0]);
    ghost var runs, requests := board.runs, board.requests;
    for i := 1 to |answers|
      invariant !Announced(flash.layout, flash.device[..]) && board.runs == runs && board.requests == requests
    {
      RewrittenSame(flash.layout, flash.device[..], worlds[i]);
      CallAgain(flash, board, worlds[i], answers[i]);
    }
  }
}
