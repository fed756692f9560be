/** The header of a patch in the storage partition: "NEWP" and the size of the patch,
    both little-endian words. The magic word is cleared when the header is read, and
    it has to stay cleared through the run that follows. */
module PatchHeader {
  import opened Bytes
  import opened FlashSpec
  import opened EraseAhead
  import opened SlotContents

  /** "NEWP" read as a word */
  const NEW_PATCH: nat := 0x5057_454E

  const MAGIC: seq<byte> := [0x4E, 0x45, 0x57, 0x50]

  const ZERO_WORD: seq<byte> := [0, 0, 0, 0]

  /** A little-endian uint32_t */
  function Word(b: seq<byte>): nat
    requires |b| == 4
  {
    b[0] as int + 0x100 * (b[1] as int) + 0x1_0000 * (b[2] as int) + 0x100_0000 * (b[3] as int)
  }

  function WordBytes(v: nat): (b: seq<byte>)
    requires v < 0x1_0000_0000
    ensures |b| == 4 && Word(b) == v
  {
    var high := v / 0x100;
    var higher := high / 0x100;
    [v % 0x100, high % 0x100, higher % 0x100, higher / 0x100]
  }

  lemma WordInjective(a: seq<byte>, b: seq<byte>)
    requires |a| == |b| == 4 && Word(a) == Word(b)
    ensures a == b
  {
    var high, higher := a[2] as int + 0x100 * (a[3] as int), b[2] as int + 0x100 * (b[3] as int);
    LowByte(a[0], a[1] as int + 0x100 * high, b[0], b[1] as int + 0x100 * higher);
    LowByte(a[1], high, b[1], higher);
    LowByte(a[2], a[3], b[2], b[3]);
  }

  lemma LowByte(a: byte, x: int, b: byte, y: int)
    requires a as int + 0x100 * x == b as int + 0x100 * y
    ensures a == b && x == y
  {
  }

  /** A new patch is announced. */
  predicate Announced(l: Layout, mem: seq<byte>)
    requires ValidLayout(l, |mem|)
  {
    mem[l.storageOffset..l.storageOffset + 4] == MAGIC
  }

  function AnnouncedSize(l: Layout, mem: seq<byte>): nat
    requires ValidLayout(l, |mem|)
  {
    Word(mem[l.storageOffset + 4..l.storageOffset + 8])
  }

  /** A patch is announced by the letters NEWP, with its size behind them. */
  lemma HeaderBytes(l: Layout, mem: seq<byte>, header: seq<byte>)
    requires ValidLayout(l, |mem|) && header == mem[l.storageOffset..l.storageOffset + 8]
    ensures Announced(l, mem) <==> header[..4] == [0x4E, 0x45, 0x57, 0x50]
    ensures AnnouncedSize(l, mem) ==
      header[4] as int + 0x100 * header[5] as int + 0x1_0000 * header[6] as int + 0x100_0000 * header[7] as int
  {
    assert mem[l.storageOffset..l.storageOffset + 4] == header[..4];
  }

  /** The new header as the program sees it. */
  lemma AnnouncedWord(l: Layout, mem: seq<byte>)
    requires ValidLayout(l, |mem|)
    ensures Announced(l, mem) <==> Word(mem[l.storageOffset..l.storageOffset + 4]) == NEW_PATCH
  {
    assert Word(MAGIC) == NEW_PATCH;
    if Word(mem[l.storageOffset..l.storageOffset + 4]) == NEW_PATCH {
      WordInjective(mem[l.storageOffset..l.storageOffset + 4], MAGIC);
    }
  }

  /** What pad_patch.py makes of a patch, with the header size the program expects. */
  function PadPatch(patch: seq<byte>): seq<byte>
    requires |patch| < 0x1_0000_0000
  {
    MAGIC + WordBytes(|patch|) + patch
  }

  /** A padded patch at the start of the partition is found, with its size and bytes. */
  lemma PaddedFound(l: Layout, mem: seq<byte>, patch: seq<byte>)
    requires ValidLayout(l, |mem|) && |patch| < 0x1_0000_0000
    requires l.storageOffset + HEADER_SIZE + |patch| <= |mem|
    requires mem[l.storageOffset..l.storageOffset + HEADER_SIZE + |patch|] == PadPatch(patch)
    ensures Announced(l, mem) && AnnouncedSize(l, mem) == |patch|
    ensures mem[l.storageOffset + HEADER_SIZE..l.storageOffset + HEADER_SIZE + |patch|] == patch
  {
    var s, padded := l.storageOffset, PadPatch(patch);
    var part := mem[s..s + HEADER_SIZE + |patch|];
    assert mem[s..s + 4] == part[..4] && part[..4] == MAGIC;
    assert mem[s + 4..s + 8] == part[4..8] && part[4..8] == WordBytes(|patch|);
    assert mem[s + 8..s + 8 + |patch|] == part[8..] && part[8..] == patch;
  }

  /** The header after it has been read: all bits of the magic word programmed to zero. */
  function Cleared(l: Layout, mem: seq<byte>): (r: seq<byte>)
    requires ValidLayout(l, |mem|)
    ensures |r| == |mem|
  {
    Program(mem, l.storageOffset, ZERO_WORD)
  }

  predicate IsCleared(l: Layout, mem: seq<byte>)
    requires ValidLayout(l, |mem|)
  {
    forall i :: l.storageOffset <= i < l.storageOffset + 4 ==> mem[i] == 0
  }

  lemma ClearedEffect(l: Layout, mem: seq<byte>)
    requires ValidLayout(l, |mem|)
    ensures IsCleared(l, Cleared(l, mem)) && AnnouncedSize(l, Cleared(l, mem)) == AnnouncedSize(l, mem)
    ensures forall i :: 0 <= i < |mem| && !(l.storageOffset <= i < l.storageOffset + 4) ==> Cleared(l, mem)[i] == mem[i]
  {
    var r := Cleared(l, mem);
    assert r[l.storageOffset + 4..l.storageOffset + 8] == mem[l.storageOffset + 4..l.storageOffset + 8];
  }

  // -- staying cleared -----------------------------------------------------------------

  /** The writes a run can make: slices, all but the last of which fit the slot. */
  predicate Possible(l: Layout, ws: seq<seq<byte>>) {
    AreSlices(ws) && (ws != [] ==> |Join(ws[..|ws| - 1])| < l.secondarySize)
  }

  function AfterRun(l: Layout, mem: seq<byte>, ws: seq<seq<byte>>): seq<byte>
    requires ValidLayout(l, |mem|)
  {
    PenAfter(l, Begin(l, mem), ws).mem
  }

  lemma RunLength(l: Layout, mem: seq<byte>, ws: seq<seq<byte>>)
    requires ValidLayout(l, |mem|) && Possible(l, ws)
    ensures |AfterRun(l, mem, ws)| == |mem|
  {
    if ws != [] {
      RunEffect(l, mem, ws[..|ws| - 1]);
    }
  }

  /** A slot end and a header with fewer bytes than this between them can meet in one write. */
  const HEADER_GAP: nat := 124

  ghost predicate StaysCleared(l: Layout, deviceSize: nat)
    requires ValidLayout(l, deviceSize)
  {
    forall mem: seq<byte>, ws: seq<seq<byte>> :: |mem| == deviceSize && IsCleared(l, mem) && Possible(l, ws) ==>
      |AfterRun(l, mem, ws)| == |mem| && !Announced(l, AfterRun(l, mem, ws))
  }

  /** With the gap, the last byte of a cleared header is never written. */
  lemma GapKeeps(l: Layout, mem: seq<byte>, ws: seq<seq<byte>>)
    requires ValidLayout(l, |mem|) && IsCleared(l, mem) && Possible(l, ws)
    requires l.storageOffset >= FlashEnd(l) + HEADER_GAP
    ensures |AfterRun(l, mem, ws)| == |mem| && !Announced(l, AfterRun(l, mem, ws))
  {
    var last := l.storageOffset + 3;
    RunLength(l, mem, ws);
    if ws != [] {
      var init, w := ws[..|ws| - 1], ws[|ws| - 1];
      RunEffect(l, mem, init);
      LastWrite(l, PenAfter(l, Begin(l, mem), init), w, last);
    }
    LastByte(l, AfterRun(l, mem, ws), last);
  }

  lemma LastByte(l: Layout, mem: seq<byte>, last: nat)
    requires ValidLayout(l, |mem|) && last == l.storageOffset + 3 && mem[last] in {0, ERASED}
    ensures !Announced(l, mem)
  {
    assert mem[l.storageOffset..l.storageOffset + 4][3] == mem[last];
  }

  lemma LastWrite(l: Layout, p: Pen, w: seq<byte>, i: nat)
    requires ValidLayout(l, |p.mem|) && l.secondaryOffset <= p.pos < FlashEnd(l) && |w| <= SLICE
    requires FlashEnd(l) + SLICE - 1 <= i < |p.mem| && p.mem[i] == 0
    ensures |Write(l, p, w).pen.mem| == |p.mem|
    ensures Write(l, p, w).pen.mem[i] in {0, ERASED}
  {
  }

  /** The last write of a run that loses the header: the magic word where the header
      will be, when the write begins on the last byte of the slot. */
  predicate Carries(w: seq<byte>, g: nat) {
    |w| == SLICE && g < HEADER_GAP && w[g + 1..g + 5] == MAGIC
  }

  function Carrier(g: nat): (w: seq<byte>)
    requires g < HEADER_GAP
    ensures Carries(w, g)
  {
    var w := Filler(g + 1) + MAGIC + Filler(SLICE - g - 5);
    assert w[g + 1..g + 5] == MAGIC;
    w
  }

  function Filler(n: nat): (s: seq<byte>)
    ensures |s| == n
  {
    seq(n, _ => 0)
  }

  /** Without the gap such a run writes the magic word again: slices of 128 up to the
      last, one of 127, and one that erases the page of the header and programs it. */
  lemma NoGapLoses(l: Layout, mem: seq<byte>, short: seq<seq<byte>>, w: seq<byte>, times: nat)
    requires ValidLayout(l, |mem|) && |mem| % PAGE_SIZE == 0 && l.storageOffset < FlashEnd(l) + HEADER_GAP
    requires Sizes(short) == Full(times) + [127] && SLICE * times == l.secondarySize - SLICE
    requires Carries(w, l.storageOffset - FlashEnd(l))
    ensures |AfterRun(l, mem, short + [w])| == |mem| && Announced(l, AfterRun(l, mem, short + [w]))
  {
    assert (short + [w])[..|short|] == short;
    AlmostFull(l, mem, short, times);
    Revive(l, PenAfter(l, Begin(l, mem), short), w, l.storageOffset - FlashEnd(l));
  }

  /** A run that leaves one byte of the slot, and one byte of the write counter. */
  lemma AlmostFull(l: Layout, mem: seq<byte>, ws: seq<seq<byte>>, times: nat)
    requires ValidLayout(l, |mem|) && Sizes(ws) == Full(times) + [127] && SLICE * times == l.secondarySize - SLICE
    ensures |Join(ws)| == l.secondarySize - 1
    ensures var p := PenAfter(l, Begin(l, mem), ws);
      |p.mem| == |mem| && p.pos == FlashEnd(l) - 1 && p.writeBuf == PAGE_SIZE - 1
  {
    FullAhead(times);
    AheadSnoc(Full(times), 127);
    JoinLength(ws);
    SlotInPages(l.secondarySize, times);
    RunEffect(l, mem, ws);
    CountOf(l, mem, ws);
  }

  lemma SlotInPages(size: nat, times: nat)
    requires size > 0 && size % PAGE_SIZE == 0 && SLICE * times == size - SLICE
    ensures SLICE * times % PAGE_SIZE == PAGE_SIZE - SLICE
  {
    ModUnique(SLICE * times, PAGE_SIZE, size / PAGE_SIZE - 1, PAGE_SIZE - SLICE);
  }

  /** Full slices keep the counter in step with the pages. */
  lemma {:induction false} FullAhead(times: nat)
    ensures AheadAll(Full(times)).pos == SLICE * times && AheadAll(Full(times)).count == SLICE * times % PAGE_SIZE
  {
    if times > 0 {
      FullAhead(times - 1);
      AheadSnoc(Full(times - 1), SLICE);
      NextCount(times - 1);
    }
  }

  lemma NextCount(times: nat)
    ensures var count := SLICE * times % PAGE_SIZE;
      SLICE * (times + 1) % PAGE_SIZE == if count + SLICE >= PAGE_SIZE then 0 else count + SLICE
  {
  }

  lemma WriteCrossing(l: Layout, p: Pen, w: seq<byte>, page: nat) returns (mem: seq<byte>)
    requires p.writeBuf + |w| >= PAGE_SIZE && page % PAGE_SIZE == 0 && page <= p.pos + |w| < page + PAGE_SIZE <= |p.mem|
    ensures mem == Write(l, p, w).pen.mem == Program(ErasePage(p.mem, page), p.pos, w)
  {
    assert PageStart(p.pos + |w|) == page;
    mem := Program(ErasePage(p.mem, page), p.pos, w);
  }

  lemma Revive(l: Layout, p: Pen, w: seq<byte>, g: nat)
    requires ValidLayout(l, |p.mem|) && l.storageOffset == FlashEnd(l) + g && Carries(w, g)
    requires p.pos == FlashEnd(l) - 1 && p.writeBuf == PAGE_SIZE - 1 && |p.mem| % PAGE_SIZE == 0
    ensures |Write(l, p, w).pen.mem| == |p.mem| && Announced(l, Write(l, p, w).pen.mem)
  {
    var mem := WriteCrossing(l, p, w, FlashEnd(l));
    forall j | 0 <= j < 4 ensures mem[l.storageOffset + j] == MAGIC[j] {
      assert w[g + 1 + j] == w[g + 1..g + 5][j];
      ProgramErased(w[g + 1 + j]);
    }
    assert mem[l.storageOffset..l.storageOffset + 4] == MAGIC;
  }

  /** So the gap is exactly what a cleared header needs to stay cleared, on a flash
      of whole pages. */
  lemma HeaderGapExact(l: Layout, deviceSize: nat)
    requires ValidLayout(l, deviceSize) && deviceSize % PAGE_SIZE == 0
    ensures StaysCleared(l, deviceSize) <==> l.storageOffset >= FlashEnd(l) + HEADER_GAP
  {
    if l.storageOffset >= FlashEnd(l) + HEADER_GAP {
      forall mem: seq<byte>, ws: seq<seq<byte>> | |mem| == deviceSize && IsCleared(l, mem) && Possible(l, ws)
        ensures |AfterRun(l, mem, ws)| == |mem| && !Announced(l, AfterRun(l, mem, ws))
      {
        GapKeeps(l, mem, ws);
      }
    } else {
      var mem, ws := SomeRunLoses(l, deviceSize);
    }
  }

  lemma SomeRunLoses(l: Layout, deviceSize: nat) returns (mem: seq<byte>, ws: seq<seq<byte>>)
    requires ValidLayout(l, deviceSize) && deviceSize % PAGE_SIZE == 0 && l.storageOffset < FlashEnd(l) + HEADER_GAP
    ensures |mem| == deviceSize && IsCleared(l, mem) && Possible(l, ws)
    ensures |AfterRun(l, mem, ws)| == |mem| && Announced(l, AfterRun(l, mem, ws))
  {
    mem := seq(deviceSize, _ => 0);
    var times := l.secondarySize / SLICE - 1;
    var short, w := Probes(Full(times) + [127]), Carrier(l.storageOffset - FlashEnd(l));
    NoGapLoses(l, mem, short, w, times);
    LosingRun(l, mem, short, w, times);
    ws := short + [w];
  }

  lemma LosingRun(l: Layout, mem: seq<byte>, short: seq<seq<byte>>, w: seq<byte>, times: nat)
    requires ValidLayout(l, |mem|) && Sizes(short) == Full(times) + [127] && SLICE * times == l.secondarySize - SLICE
    requires |w| == SLICE
    ensures Possible(l, short + [w])
  {
    AlmostFull(l, mem, short, times);
    assert (short + [w])[..|short|] == short;
    FullSlices(times);
    SlicesBySize(short);
  }

  lemma {:induction false} FullSlices(times: nat)
    ensures forall i :: 0 <= i < |Full(times)| ==> Full(times)[i] == SLICE
  {
    if times > 0 {
      FullSlices(times - 1);
    }
  }

  lemma SlicesBySize(ws: seq<seq<byte>>)
    requires forall i :: 0 <= i < |ws| ==> 1 <= Sizes(ws)[i] <= SLICE
    ensures AreSlices(ws)
  {
    forall i | 0 <= i < |ws| ensures 1 <= |ws[i]| <= SLICE {
      SizesAt(ws, i);
    }
  }
}
