/** What the slot holds after a run of writes, byte by byte, whatever their sizes. */
module SlotContents {
  import opened Bytes
  import opened FlashSpec
  import opened EraseAhead

  /** What has happened to a byte of the slot: nothing, erased last, written when it
      was erased, or written when it was not. */
  datatype Cell = Untouched | Erased | Clean | Dirty

  /** The byte at x in the slot after writes of these sizes. */
  function CellAt(sizes: seq<nat>, x: nat): Cell {
    if sizes == [] then (if x < PAGE_SIZE then Erased else Untouched)
    else
      var a, n := AheadAll(sizes[..|sizes| - 1]), sizes[|sizes| - 1];
      var c := CellAt(sizes[..|sizes| - 1], x);
      CellStep(a, n, x, c)
  }

  function CellStep(a: Ahead, n: nat, x: nat, c: Cell): Cell {
    var page := PageStart(a.pos + n);
    var c' := if a.count + n >= PAGE_SIZE && page <= x < page + PAGE_SIZE then Erased else c;
    if a.pos <= x < a.pos + n then (if c' == Erased then Clean else Dirty) else c'
  }

  function CellValue(c: Cell, was: byte, put: byte): byte {
    match c
    case Untouched => was
    case Erased => ERASED
    case Clean => put
    case Dirty => BitAnd(was, put)
  }

  /** All the writes but the last fit the slot, and the last ends on the device. */
  predicate RunLands(l: Layout, mem: seq<byte>, ws: seq<seq<byte>>)
    requires ValidLayout(l, |mem|)
  {
    ws == [] ||
    var init, w := ws[..|ws| - 1], ws[|ws| - 1];
    |Join(init)| < l.secondarySize && Lands(PenAfter(l, Begin(l, mem), init), |w|)
  }

  lemma FittingLands(l: Layout, mem: seq<byte>, ws: seq<seq<byte>>)
    requires ValidLayout(l, |mem|) && |Join(ws)| < l.secondarySize
    ensures RunLands(l, mem, ws)
  {
    if ws != [] {
      var init, w := ws[..|ws| - 1], ws[|ws| - 1];
      RunEffect(l, mem, init);
      InsideLands(l, PenAfter(l, Begin(l, mem), init), |w|);
    }
  }

  lemma InsideLands(l: Layout, p: Pen, n: nat)
    requires ValidLayout(l, |p.mem|) && l.secondaryOffset <= p.pos && p.pos + n < FlashEnd(l)
    ensures Lands(p, n)
  {
    PageBelow(p.pos + n, FlashEnd(l));
  }

  lemma PageBelow(x: nat, end: nat)
    requires x < end && end % PAGE_SIZE == 0
    ensures PageStart(x) + PAGE_SIZE <= end
  {
  }

  /** The byte at x, in the slot or behind it: what the cell says of what was there and
      what was written there, also when the last write overruns the slot. */
  lemma {:induction false} CellMeans(l: Layout, mem: seq<byte>, ws: seq<seq<byte>>, x: nat)
    requires ValidLayout(l, |mem|) && RunLands(l, mem, ws) && l.secondaryOffset + x < |mem|
    ensures |PenAfter(l, Begin(l, mem), ws).mem| == |mem|
    ensures PenAfter(l, Begin(l, mem), ws).pos == l.secondaryOffset + |Join(ws)|
    ensures var c := CellAt(Sizes(ws), x);
      && (x < |Join(ws)| ==> c != Untouched) && (x >= |Join(ws)| ==> c == Untouched || c == Erased)
      && PenAfter(l, Begin(l, mem), ws).mem[l.secondaryOffset + x] ==
           CellValue(c, mem[l.secondaryOffset + x], if x < |Join(ws)| then Join(ws)[x] else 0)
  {
    if ws != [] {
      var init, w := ws[..|ws| - 1], ws[|ws| - 1];
      FittingLands(l, mem, init);
      CellMeans(l, mem, init, x);
      JoinLength(init);
      CountOf(l, mem, init);
      var p := PenAfter(l, Begin(l, mem), init);
      WriteBytes(l, p, w);
      assert Sizes(ws)[..|ws| - 1] == Sizes(init) && Sizes(ws)[|ws| - 1] == |w|;
      CellWritten(l, p, w, AheadAll(Sizes(init)), x, CellAt(Sizes(init), x), mem[l.secondaryOffset + x],
                  if x < |Join(init)| then Join(init)[x] else 0, if x < |Join(ws)| then Join(ws)[x] else 0);
    }
  }

  lemma {:induction false} CountOf(l: Layout, mem: seq<byte>, ws: seq<seq<byte>>)
    requires ValidLayout(l, |mem|) && |Join(ws)| < l.secondarySize
    ensures PenAfter(l, Begin(l, mem), ws).writeBuf == AheadAll(Sizes(ws)).count
  {
    if ws != [] {
      var init, w := ws[..|ws| - 1], ws[|ws| - 1];
      CountOf(l, mem, init);
      RunEffect(l, mem, init);
      CountNext(l, PenAfter(l, Begin(l, mem), init), w, AheadAll(Sizes(init)));
      AheadSnoc(Sizes(init), |w|);
    }
  }

  lemma CountNext(l: Layout, p: Pen, w: seq<byte>, a: Ahead)
    requires ValidLayout(l, |p.mem|) && l.secondaryOffset <= p.pos && p.pos + |w| < FlashEnd(l) && p.writeBuf == a.count
    ensures Write(l, p, w).pen.writeBuf == AheadStep(a, |w|).count
  {
  }

  lemma CellWritten(l: Layout, p: Pen, w: seq<byte>, a: Ahead, x: nat, c: Cell, was: byte, before: byte, put: byte)
    requires ValidLayout(l, |p.mem|) && p.pos == l.secondaryOffset + a.pos && p.writeBuf == a.count
    requires Lands(p, |w|) && l.secondaryOffset + x < |p.mem|
    requires p.mem[l.secondaryOffset + x] == CellValue(c, was, before)
    requires if x < a.pos then before == put && c != Untouched
             else (c == Untouched || c == Erased) && (x < a.pos + |w| ==> put == w[x - a.pos])
    ensures var c' := CellStep(a, |w|, x, c);
      && (x < a.pos + |w| ==> c' != Untouched) && (x >= a.pos + |w| ==> c' == Untouched || c' == Erased)
      && |Write(l, p, w).pen.mem| == |p.mem|
      && Write(l, p, w).pen.mem[l.secondaryOffset + x] == CellValue(c', was, put)
  {
    WriteBytes(l, p, w);
    PageInSlot(l, a.pos + |w|, x);
    if a.pos <= x < a.pos + |w| {
      ProgramErased(w[x - a.pos]);
    }
  }

  lemma PageInSlot(l: Layout, n: nat, x: nat)
    requires l.secondaryOffset % PAGE_SIZE == 0
    ensures InPage(l.secondaryOffset + x, PageStart(l.secondaryOffset + n)) <==> InPage(x, PageStart(n))
  {
    PageOfSlot(l, n);
  }

  /** The slot begins at a page. */
  lemma PageOfSlot(l: Layout, x: nat)
    requires l.secondaryOffset % PAGE_SIZE == 0
    ensures PageStart(l.secondaryOffset + x) == l.secondaryOffset + PageStart(x)
  {
  }

  // -- when the slot holds what was written ---------------------------------------

  /** The image comes out right on a slot that held `was`. */
  predicate Holds(sizes: seq<nat>, was: seq<byte>, out: seq<byte>)
    requires |out| <= |was|
  {
    forall x :: 0 <= x < |out| ==> CellValue(CellAt(sizes, x), was[x], out[x]) == out[x]
  }

  /** The image comes out right on every slot: bytes written on unerased flash are
      zero, and bytes erased after they were written are all ones. */
  predicate Harmless(sizes: seq<nat>, out: seq<byte>) {
    forall x :: 0 <= x < |out| ==> Spared(CellAt(sizes, x), out[x])
  }

  predicate Spared(c: Cell, put: byte) {
    match c
    case Clean => true
    case Dirty => put == 0
    case Erased => put == ERASED
    case Untouched => false
  }

  function SlotOf(l: Layout, mem: seq<byte>): (s: seq<byte>)
    requires ValidLayout(l, |mem|)
    ensures |s| == l.secondarySize
  {
    mem[l.secondaryOffset..FlashEnd(l)]
  }

  /** For each flash, exactly when the slot holds the image. */
  lemma StoredExact(l: Layout, mem: seq<byte>, ws: seq<seq<byte>>)
    requires ValidLayout(l, |mem|) && |Join(ws)| < l.secondarySize
    ensures Stored(l, mem, ws) <==> Holds(Sizes(ws), SlotOf(l, mem), Join(ws))
  {
    RunEffect(l, mem, ws);
    FittingLands(l, mem, ws);
    var p, out, was := PenAfter(l, Begin(l, mem), ws), Join(ws), SlotOf(l, mem);
    var got := p.mem[l.secondaryOffset..p.pos];
    forall x | 0 <= x < |out| ensures got[x] == CellValue(CellAt(Sizes(ws), x), was[x], out[x]) {
      SlotByte(l, mem, ws, x, p.mem, out, was, got);
    }
    SameBytes(Sizes(ws), was, out, got);
  }

  lemma SlotByte(l: Layout, mem: seq<byte>, ws: seq<seq<byte>>, x: nat, after: seq<byte>, out: seq<byte>,
                 was: seq<byte>, got: seq<byte>)
    requires ValidLayout(l, |mem|) && RunLands(l, mem, ws) && out == Join(ws) && x < |out| < l.secondarySize
    requires after == PenAfter(l, Begin(l, mem), ws).mem && |after| == |mem| && was == SlotOf(l, mem)
    requires got == after[l.secondaryOffset..l.secondaryOffset + |out|]
    ensures got[x] == CellValue(CellAt(Sizes(ws), x), was[x], out[x])
  {
    CellMeans(l, mem, ws, x);
    SlotAt(l, mem, x);
  }

  lemma SlotAt(l: Layout, mem: seq<byte>, x: nat)
    requires ValidLayout(l, |mem|) && x < l.secondarySize
    ensures SlotOf(l, mem)[x] == mem[l.secondaryOffset + x]
  {
  }

  lemma SameBytes(sizes: seq<nat>, was: seq<byte>, out: seq<byte>, got: seq<byte>)
    requires |got| == |out| <= |was|
    requires forall x :: 0 <= x < |out| ==> got[x] == CellValue(CellAt(sizes, x), was[x], out[x])
    ensures got == out <==> Holds(sizes, was, out)
  {
    if Holds(sizes, was, out) {
      assert forall x :: 0 <= x < |out| ==> got[x] == out[x];
    }
  }

  /** For each image, exactly when every slot holds it. */
  lemma HarmlessExact(l: Layout, mem: seq<byte>, ws: seq<seq<byte>>)
    requires ValidLayout(l, |mem|) && |Join(ws)| < l.secondarySize
    ensures Harmless(Sizes(ws), Join(ws)) <==>
      forall was: seq<byte> :: |was| == l.secondarySize ==> Holds(Sizes(ws), was, Join(ws))
  {
    var sizes, out := Sizes(ws), Join(ws);
    var zeros: seq<byte> := seq(l.secondarySize, _ => 0);
    if Harmless(sizes, out) {
      forall was: seq<byte> | |was| == l.secondarySize ensures Holds(sizes, was, out) {
      }
    } else {
      var x :| 0 <= x < |out| && !Spared(CellAt(sizes, x), out[x]);
      FittingLands(l, mem, ws);
      CellMeans(l, mem, ws, x);
      assert CellValue(CellAt(sizes, x), zeros[x], out[x]) != out[x];
      assert !Holds(sizes, zeros, out);
    }
  }

  /** Safe sizes are those that ink every byte. */
  lemma SafeInks(l: Layout, mem: seq<byte>, ws: seq<seq<byte>>, x: nat)
    requires ValidLayout(l, |mem|) && Safe(Sizes(ws)) && SmallWrites(Sizes(ws))
    requires |Join(ws)| < l.secondarySize && x < |Join(ws)|
    ensures CellAt(Sizes(ws), x) == Clean
  {
    var sizes := Sizes(ws);
    var zeros: seq<byte> := seq(|mem|, _ => 0);
    var probes := Probes(sizes);
    JoinLength(ws);
    JoinLength(probes);
    ProbesJoin(sizes);
    SafeStored(l, zeros, probes);
    StoredAt(l, zeros, probes, x);
    FittingLands(l, zeros, probes);
    CellMeans(l, zeros, probes, x);
  }

  lemma SafeHarmless(l: Layout, mem: seq<byte>, ws: seq<seq<byte>>)
    requires ValidLayout(l, |mem|) && Safe(Sizes(ws)) && SmallWrites(Sizes(ws)) && |Join(ws)| < l.secondarySize
    ensures Harmless(Sizes(ws), Join(ws))
  {
    forall x | 0 <= x < |Join(ws)| ensures CellAt(Sizes(ws), x) == Clean {
      SafeInks(l, mem, ws, x);
    }
  }
}
