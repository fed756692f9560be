/** When erasing ahead works. The write counter is reset to zero, not reduced by the
    page size, each time a page is erased, so the erased area advances by one page
    each time while the writes may have advanced by more. */
module EraseAhead {
  import opened Bytes
  import opened FlashSpec

  /** Bytes written, write counter, and end of the erased area in the slot. */
  datatype Ahead = Ahead(pos: nat, count: nat, limit: nat)

  function AheadStep(a: Ahead, n: nat): Ahead {
    if a.count + n >= PAGE_SIZE then Ahead(a.pos + n, 0, a.limit + PAGE_SIZE)
    else Ahead(a.pos + n, a.count + n, a.limit)
  }

  function AheadAll(sizes: seq<nat>): Ahead {
    if sizes == [] then Ahead(0, 0, PAGE_SIZE) else AheadStep(AheadAll(sizes[..|sizes| - 1]), sizes[|sizes| - 1])
  }

  /** No write ends beyond the erased area: the condition, on the sizes alone. */
  predicate Safe(sizes: seq<nat>) {
    sizes == [] || (Safe(sizes[..|sizes| - 1]) && AheadAll(sizes).pos <= AheadAll(sizes).limit)
  }

  function Sizes(ws: seq<seq<byte>>): (sizes: seq<nat>)
    ensures |sizes| == |ws|
  {
    if ws == [] then [] else Sizes(ws[..|ws| - 1]) + [|ws[|ws| - 1]|]
  }

  lemma {:induction false} SizesAt(ws: seq<seq<byte>>, i: nat)
    requires i < |ws|
    ensures Sizes(ws)[i] == |ws[i]|
  {
    if i < |ws| - 1 {
      SizesAt(ws[..|ws| - 1], i);
    }
  }

  predicate SmallWrites(sizes: seq<nat>) {
    forall i :: 0 <= i < |sizes| ==> 1 <= sizes[i] < PAGE_SIZE
  }

  // -- sufficient --------------------------------------------------------------------

  lemma JoinLength(ws: seq<seq<byte>>)
    ensures |Join(ws)| == AheadAll(Sizes(ws)).pos
  {
    if ws != [] {
      JoinLength(ws[..|ws| - 1]);
      assert Sizes(ws)[..|ws| - 1] == Sizes(ws[..|ws| - 1]);
    }
  }

  /** The slot after some writes: what was written, then erased flash up to the
      limit; everything else as it was. */
  ghost predicate Inked(l: Layout, mem0: seq<byte>, p: Pen, data: seq<byte>, a: Ahead) {
    var s := l.secondaryOffset;
    && |p.mem| == |mem0| && p.pos == s + a.pos && p.writeBuf == a.count && |data| == a.pos <= a.limit
    && s + a.limit <= FlashEnd(l) <= |mem0|
    && (forall i :: 0 <= i < a.pos ==> p.mem[s + i] == data[i])
    && (forall i :: s + a.pos <= i < s + a.limit ==> p.mem[i] == ERASED)
    && (forall i :: 0 <= i < |mem0| && !(s <= i < s + a.limit) ==> p.mem[i] == mem0[i])
  }

  /** The erased area is whole pages, and the counter reaches the page size no
      later than the writes reach its end. */
  predicate Paced(a: Ahead) {
    a.limit % PAGE_SIZE == 0 && a.limit + a.count <= a.pos + PAGE_SIZE && a.count < PAGE_SIZE
  }

  lemma {:induction false} AlwaysPaced(sizes: seq<nat>)
    requires Safe(sizes) && SmallWrites(sizes)
    ensures Paced(AheadAll(sizes)) && AheadAll(sizes).pos <= AheadAll(sizes).limit
  {
    if sizes != [] {
      AlwaysPaced(sizes[..|sizes| - 1]);
    }
  }

  lemma EraseInked(l: Layout, mem0: seq<byte>, p: Pen, data: seq<byte>, a: Ahead, n: nat) returns (q: Pen)
    requires ValidLayout(l, |mem0|) && Inked(l, mem0, p, data, a) && Paced(a)
    requires n < PAGE_SIZE && a.count + n >= PAGE_SIZE && a.pos + n < l.secondarySize
    ensures PageStart(p.pos + n) == l.secondaryOffset + a.limit && l.secondaryOffset + a.limit + PAGE_SIZE <= |p.mem|
    ensures q == Pen(ErasePage(p.mem, PageStart(p.pos + n)), p.pos, 0)
    ensures Inked(l, mem0, q, data, Ahead(a.pos, 0, a.limit + PAGE_SIZE))
  {
    assert PageStart(p.pos + n) == l.secondaryOffset + a.limit;
    q := Pen(ErasePage(p.mem, PageStart(p.pos + n)), p.pos, 0);
  }

  lemma ProgramErased(b: byte)
    ensures BitAnd(ERASED, b) == b
  {
    assert Pow2(8) == 256;
    AndOnes(8, b);
  }

  lemma ProgramInked(l: Layout, mem0: seq<byte>, p: Pen, data: seq<byte>, a: Ahead, w: seq<byte>, count: nat)
    requires Inked(l, mem0, p, data, a) && a.pos + |w| <= a.limit && ValidLayout(l, |mem0|)
    ensures p.pos + |w| <= |p.mem|
    ensures Inked(l, mem0, Pen(Program(p.mem, p.pos, w), p.pos + |w|, count), data + w,
                  Ahead(a.pos + |w|, count, a.limit))
  {
    var mem := Program(p.mem, p.pos, w);
    forall i | a.pos <= i < a.pos + |w| ensures mem[l.secondaryOffset + i] == (data + w)[i] {
      ProgramErased(w[i - a.pos]);
    }
  }

  /** One safe write. */
  lemma WriteInked(l: Layout, mem0: seq<byte>, p: Pen, data: seq<byte>, a: Ahead, w: seq<byte>)
    requires ValidLayout(l, |mem0|) && Inked(l, mem0, p, data, a) && Paced(a)
    requires 1 <= |w| < PAGE_SIZE && a.pos + |w| < l.secondarySize
    requires AheadStep(a, |w|).pos <= AheadStep(a, |w|).limit
    ensures Write(l, p, w).ok && Inked(l, mem0, Write(l, p, w).pen, data + w, AheadStep(a, |w|))
  {
    if a.count + |w| >= PAGE_SIZE {
      var q := EraseInked(l, mem0, p, data, a, |w|);
      ProgramInked(l, mem0, q, data, Ahead(a.pos, 0, a.limit + PAGE_SIZE), w, 0);
    } else {
      ProgramInked(l, mem0, p, data, a, w, a.count + |w|);
    }
  }

  /** Safe sizes: the slot holds the concatenation of the writes, and nothing outside
      the pages written to has changed. */
  lemma {:induction false} SafeStores(l: Layout, mem: seq<byte>, ws: seq<seq<byte>>)
    requires ValidLayout(l, |mem|) && Safe(Sizes(ws)) && SmallWrites(Sizes(ws))
    requires |Join(ws)| < l.secondarySize
    ensures Inked(l, mem, PenAfter(l, Begin(l, mem), ws), Join(ws), AheadAll(Sizes(ws)))
  {
    if ws != [] {
      var init, w := ws[..|ws| - 1], ws[|ws| - 1];
      assert Sizes(ws)[..|ws| - 1] == Sizes(init);
      assert |w| == Sizes(ws)[|ws| - 1];
      SafeStores(l, mem, init);
      AlwaysPaced(Sizes(init));
      WriteInked(l, mem, PenAfter(l, Begin(l, mem), init), Join(init), AheadAll(Sizes(init)), w);
    }
  }

  // -- necessary ----------------------------------------------------------------------

  /** An image byte that is neither 0 nor 0xFF shows every kind of loss: written over
      a cleared byte it becomes 0, erased afterwards it becomes 0xFF. */
  const PROBE: byte := 1

  predicate Lost(l: Layout, p: Pen, x: nat) {
    l.secondaryOffset + x < p.pos && l.secondaryOffset + x < |p.mem| && p.mem[l.secondaryOffset + x] in {0, ERASED}
  }

  /** A byte behind the writing position stays lost. */
  lemma StaysLost(l: Layout, p: Pen, w: seq<byte>, x: nat)
    requires Lost(l, p, x)
    ensures Lost(l, Write(l, p, w).pen, x)
  {
  }

  /** Writing over a byte that was not erased loses it. */
  lemma LosesUnerased(l: Layout, p: Pen, w: seq<byte>, x: nat)
    requires p.writeBuf + |w| < PAGE_SIZE && p.pos + |w| <= |p.mem|
    requires p.pos <= l.secondaryOffset + x < p.pos + |w|
    requires p.mem[l.secondaryOffset + x] == 0
    ensures Lost(l, Write(l, p, w).pen, x)
  {
  }

  /** Unsafe sizes: on a cleared flash, some byte of the image is lost. */
  lemma {:induction false} UnsafeLoses(l: Layout, mem: seq<byte>, ws: seq<seq<byte>>) returns (x: nat)
    requires ValidLayout(l, |mem|) && !Safe(Sizes(ws)) && SmallWrites(Sizes(ws))
    requires |Join(ws)| < l.secondarySize && (forall i :: 0 <= i < |mem| ==> mem[i] == 0)
    ensures x < |Join(ws)| && Lost(l, PenAfter(l, Begin(l, mem), ws), x)
  {
    var init, w := ws[..|ws| - 1], ws[|ws| - 1];
    assert Sizes(ws)[..|ws| - 1] == Sizes(init);
    assert |w| == Sizes(ws)[|ws| - 1];
    var p := PenAfter(l, Begin(l, mem), init);
    if Safe(Sizes(init)) {
      var a := AheadAll(Sizes(init));
      AlwaysPaced(Sizes(init));
      SafeStores(l, mem, init);
      x := a.limit;
      LosesUnerased(l, p, w, x);
    } else {
      x := UnsafeLoses(l, mem, init);
      StaysLost(l, p, w, x);
    }
  }

  /** Every image written with these sizes, on any flash, is what the slot holds. */
  ghost predicate AlwaysStored(l: Layout, deviceSize: nat, sizes: seq<nat>)
    requires ValidLayout(l, deviceSize)
  {
    forall mem: seq<byte>, ws: seq<seq<byte>> :: |mem| == deviceSize && Sizes(ws) == sizes ==>
      Stored(l, mem, ws)
  }

  predicate Stored(l: Layout, mem: seq<byte>, ws: seq<seq<byte>>)
    requires ValidLayout(l, |mem|)
  {
    var p := PenAfter(l, Begin(l, mem), ws);
    && p.pos == l.secondaryOffset + |Join(ws)| <= |p.mem|
    && p.mem[l.secondaryOffset..p.pos] == Join(ws)
  }

  /** The condition on the write sizes is exact: it is what the code needs to store
      every image on every flash. */
  lemma EraseAheadExact(l: Layout, deviceSize: nat, sizes: seq<nat>)
    requires ValidLayout(l, deviceSize) && SmallWrites(sizes) && AheadAll(sizes).pos < l.secondarySize
    ensures Safe(sizes) <==> AlwaysStored(l, deviceSize, sizes)
  {
    if Safe(sizes) {
      forall mem: seq<byte>, ws: seq<seq<byte>> | |mem| == deviceSize && Sizes(ws) == sizes
        ensures Stored(l, mem, ws)
      {
        JoinLength(ws);
        SafeStored(l, mem, ws);
      }
    } else {
      var mem: seq<byte> := seq(deviceSize, _ => 0);
      var ws := Probes(sizes);
      JoinLength(ws);
      var x := UnsafeLoses(l, mem, ws);
      ProbesJoin(sizes);
      if Stored(l, mem, ws) {
        StoredAt(l, mem, ws, x);
      }
      assert !Stored(l, mem, ws);
    }
  }

  lemma StoredAt(l: Layout, mem: seq<byte>, ws: seq<seq<byte>>, x: nat)
    requires ValidLayout(l, |mem|) && Stored(l, mem, ws) && x < |Join(ws)|
    ensures PenAfter(l, Begin(l, mem), ws).mem[l.secondaryOffset + x] == Join(ws)[x]
  {
    var p := PenAfter(l, Begin(l, mem), ws);
    assert p.mem[l.secondaryOffset + x] == p.mem[l.secondaryOffset..p.pos][x];
  }

  lemma SafeStored(l: Layout, mem: seq<byte>, ws: seq<seq<byte>>)
    requires ValidLayout(l, |mem|) && Safe(Sizes(ws)) && SmallWrites(Sizes(ws))
    requires |Join(ws)| < l.secondarySize
    ensures Stored(l, mem, ws)
  {
    SafeStores(l, mem, ws);
    InkedStored(l, mem, PenAfter(l, Begin(l, mem), ws), Join(ws), AheadAll(Sizes(ws)));
  }

  lemma InkedStored(l: Layout, mem0: seq<byte>, p: Pen, data: seq<byte>, a: Ahead)
    requires Inked(l, mem0, p, data, a)
    ensures p.pos == l.secondaryOffset + |data| <= |p.mem| && p.mem[l.secondaryOffset..p.pos] == data
  {
  }

  function Probes(sizes: seq<nat>): (ws: seq<seq<byte>>)
    ensures |ws| == |sizes| && Sizes(ws) == sizes
  {
    if sizes == [] then [] else
      var init := Probes(sizes[..|sizes| - 1]);
      var ws := init + [seq(sizes[|sizes| - 1], _ => PROBE)];
      assert ws[..|ws| - 1] == init;
      ws
  }

  lemma {:induction false} ProbesJoin(sizes: seq<nat>)
    ensures forall i :: 0 <= i < |Join(Probes(sizes))| ==> Join(Probes(sizes))[i] == PROBE
  {
    if sizes != [] {
      ProbesJoin(sizes[..|sizes| - 1]);
      var ws := Probes(sizes);
      assert ws[..|ws| - 1] == Probes(sizes[..|sizes| - 1]);
    }
  }

  // -- which sizes are safe -------------------------------------------------------------

  /** Writes of one size that divides a page, with a shorter last one, are safe. */
  lemma {:induction false} FixedSizeSafe(sizes: seq<nat>, d: nat)
    requires d in {1, 2, 4, 8, 16, 32, 64, 128}
    requires forall i :: 0 <= i < |sizes| ==> 1 <= sizes[i] <= d
    requires forall i :: 0 <= i < |sizes| - 1 ==> sizes[i] == d
    ensures Safe(sizes)
  {
    if sizes != [] {
      var init := sizes[..|sizes| - 1];
      FixedSizeSafe(init, d);
      var q := FixedSizePaced(init, d);
    }
  }

  lemma {:induction false} FixedSizePaced(sizes: seq<nat>, d: nat) returns (q: nat)
    requires d in {1, 2, 4, 8, 16, 32, 64, 128}
    requires forall i :: 0 <= i < |sizes| ==> sizes[i] == d
    ensures var a := AheadAll(sizes);
      a.count == q * d && a.count + d <= PAGE_SIZE && a.limit + a.count == a.pos + PAGE_SIZE
  {
    q := 0;
    if sizes != [] {
      var before := FixedSizePaced(sizes[..|sizes| - 1], d);
      var a := AheadAll(sizes[..|sizes| - 1]);
      assert (before + 1) * d == before * d + d;
      if a.count + d < PAGE_SIZE {
        q := before + 1;
        PageOf(d, q);
      } else {
        assert a.count + d == PAGE_SIZE;
      }
    }
  }

  /** Whole pieces of a page. */
  lemma PageOf(d: nat, q: nat)
    requires d in {1, 2, 4, 8, 16, 32, 64, 128} && q * d < PAGE_SIZE
    ensures q * d + d <= PAGE_SIZE
  {
    if d == 1 {} else if d == 2 {} else if d == 4 {} else if d == 8 {}
    else if d == 16 {} else if d == 32 {} else if d == 64 {} else {}
  }

  /** `times` full slices of 128 bytes. */
  function Full(times: nat): seq<nat> {
    if times == 0 then [] else Full(times - 1) + [128]
  }

  lemma {:induction false} AheadFull(sizes: seq<nat>, times: nat, a: Ahead)
    requires AheadAll(sizes) == a && a.count + 128 * times < PAGE_SIZE
    ensures AheadAll(sizes + Full(times)) == Ahead(a.pos + 128 * times, a.count + 128 * times, a.limit)
  {
    var all := sizes + Full(times);
    if times == 0 {
      assert all == sizes;
    } else {
      AheadFull(sizes, times - 1, a);
      assert all[..|all| - 1] == sizes + Full(times - 1);
    }
  }

  lemma AheadSnoc(sizes: seq<nat>, n: nat)
    ensures AheadAll(sizes + [n]) == AheadStep(AheadAll(sizes), n)
  {
    assert (sizes + [n])[..|sizes|] == sizes;
  }

  lemma {:induction false} FullFront(times: nat)
    ensures Full(times + 1) == [128] + Full(times)
  {
    if times > 0 {
      FullFront(times - 1);
    }
  }

  /** Erasing ahead fails for the slices of two blocks of 4095 and 4222 bytes: the
      writes end 125 bytes beyond the two pages that were erased. */
  lemma IrregularUnsafe(sizes: seq<nat>, full: nat)
    requires full == 31 && sizes == Full(full) + [127] + (Full(full + 1) + [126])
    ensures AheadAll(sizes) == Ahead(2 * PAGE_SIZE + 125, 4094, 2 * PAGE_SIZE) && !Safe(sizes)
  {
    var a := Full(full);
    AheadFull([], full, Ahead(0, 0, PAGE_SIZE));
    assert [] + a == a;
    AheadSnoc(a, 127);
    IrregularAhead(a + [127], full, sizes, a + [127] + [128] + a);
  }

  lemma IrregularAhead(b: seq<nat>, full: nat, sizes: seq<nat>, c: seq<nat>)
    requires full == 31 && AheadAll(b) == Ahead(4095, 4095, PAGE_SIZE) && sizes == b + (Full(full + 1) + [126])
    requires c == b + [128] + Full(full)
    ensures AheadAll(sizes) == Ahead(2 * PAGE_SIZE + 125, 4094, 2 * PAGE_SIZE) && !Safe(sizes)
  {
    AheadSnoc(b, 128);
    AheadFull(b + [128], full, Ahead(4223, 0, 2 * PAGE_SIZE));
    AheadSnoc(c, 126);
    FullFront(full);
    Regrouped(b, Full(full), Full(full + 1), sizes, c);
  }

  lemma Regrouped(b: seq<nat>, a: seq<nat>, more: seq<nat>, sizes: seq<nat>, c: seq<nat>)
    requires more == [128] + a && sizes == b + (more + [126]) && c == b + [128] + a
    ensures sizes == c + [126]
  {
  }
}
