/** The writes of a prepared patch: each block of the plan in slices of 128 bytes, the
    last one of a block and the last one of a chunk of the patch shorter. */
module PatchPlans {
  import opened Bytes
  import opened HeatshrinkSpec
  import opened Varint
  import opened PatchSpec
  import opened PatchFacts
  import opened FlashSpec
  import opened PatchSlices
  import RoundTrip

  /** Where the slice ends of which n - 1 bytes do not complete it. */
  function FirstCut(c: Cuts, from: nat, left: nat, n: nat): (r: nat)
    requires 1 <= n <= left && n <= SLICE
    ensures n <= r <= left && r <= SLICE
    decreases left - n
  {
    if n == SLICE || n == left || CutsAfter(c, from, n) then n else FirstCut(c, from, left, n + 1)
  }

  /** A slice that begins at `from` cannot go on behind n bytes. */
  predicate CutsAfter(c: Cuts, from: nat, n: nat) {
    Cut(c, from, from + n)
  }

  /** The slices of a block whose data begins behind `from` decompressed bytes. */
  function Pieces(c: Cuts, from: nat, t: seq<byte>): seq<seq<byte>>
    decreases |t|
  {
    if t == [] then []
    else
      var n := FirstCut(c, from, |t|, 1);
      [t[..n]] + Pieces(c, from + n, t[n..])
  }

  /** Where the data of a block begins in the stream, and where the block ends. */
  function DiffAt(b: RoundTrip.Block, used: nat): nat {
    used + |PackSize(|b.diff|)|
  }

  function ExtraAt(b: RoundTrip.Block, used: nat): nat {
    DiffAt(b, used) + |b.diff| + |PackSize(|b.extra|)|
  }

  function BlockEnd(b: RoundTrip.Block, used: nat): nat {
    ExtraAt(b, used) + |b.extra| + |PackSize(b.adjustment)|
  }

  function BlockPieces(c: Cuts, used: nat, b: RoundTrip.Block): seq<seq<byte>> {
    Pieces(c, DiffAt(b, used), b.diff) + Pieces(c, ExtraAt(b, used), b.extra)
  }

  /** The writes of a plan whose first block begins behind `used` decompressed bytes. */
  function PlanPieces(c: Cuts, used: nat, blocks: seq<RoundTrip.Block>): seq<seq<byte>>
    decreases blocks
  {
    if blocks == [] then []
    else BlockPieces(c, used, blocks[0]) + PlanPieces(c, BlockEnd(blocks[0], used), blocks[1..])
  }

  /** The writes that are made: none after the first one that does not fit. */
  function UpTo(room: int, ws: seq<seq<byte>>): seq<seq<byte>> {
    if ws == [] then []
    else
      var init := ws[..|ws| - 1];
      if |Join(init)| < room then ws else UpTo(room, init)
  }

  lemma {:induction false} JoinConcat(a: seq<seq<byte>>, b: seq<seq<byte>>)
    ensures Join(a + b) == Join(a) + Join(b)
  {
    if b == [] {
      assert a + b == a;
    } else {
      var init, last := b[..|b| - 1], b[|b| - 1];
      JoinConcat(a, init);
      assert (a + b)[..|a + b| - 1] == a + init;
    }
  }

  lemma {:induction false} UpToConcat(room: int, a: seq<seq<byte>>, b: seq<seq<byte>>)
    ensures UpTo(room, a + b) == if |Join(a)| < room then a + UpTo(room - |Join(a)|, b) else UpTo(room, a)
  {
    if b == [] {
      assert a + b == a;
      if a != [] && |Join(a)| < room {
        assert Join(a) == Join(a[..|a| - 1]) + a[|a| - 1];
      }
    } else {
      var init := b[..|b| - 1];
      assert (a + b)[..|a + b| - 1] == a + init;
      JoinConcat(a, init);
      UpToConcat(room, a, init);
    }
  }

  lemma {:induction false} JoinPieces(c: Cuts, from: nat, t: seq<byte>)
    ensures Join(Pieces(c, from, t)) == t
    decreases |t|
  {
    if t != [] {
      var n := FirstCut(c, from, |t|, 1);
      JoinPieces(c, from + n, t[n..]);
      JoinCons(t[..n], Pieces(c, from + n, t[n..]), t[n..]);
      SplitAt(t, n);
    }
  }

  lemma JoinCons(w: seq<byte>, ws: seq<seq<byte>>, rest: seq<byte>)
    requires Join(ws) == rest
    ensures Join([w] + ws) == w + rest
  {
    JoinConcat([w], ws);
    JoinOne(w);
  }

  lemma SplitAt<T>(t: seq<T>, n: nat)
    requires n <= |t|
    ensures t == t[..n] + t[n..]
  {
  }

  lemma JoinOne(w: seq<byte>)
    ensures Join([w]) == w
  {
    assert [w][..0] == [];
  }

  lemma JoinBlock(c: Cuts, used: nat, b: RoundTrip.Block)
    ensures Join(BlockPieces(c, used, b)) == b.diff + b.extra
  {
    JoinPieces(c, DiffAt(b, used), b.diff);
    JoinPieces(c, ExtraAt(b, used), b.extra);
    JoinConcat(Pieces(c, DiffAt(b, used), b.diff), Pieces(c, ExtraAt(b, used), b.extra));
  }

  /** The writes of a plan are its target. */
  lemma {:induction false} JoinPlan(c: Cuts, used: nat, blocks: seq<RoundTrip.Block>)
    ensures Join(PlanPieces(c, used, blocks)) == RoundTrip.Target(blocks)
    decreases blocks
  {
    if blocks != [] {
      JoinBlock(c, used, blocks[0]);
      JoinPlan(c, BlockEnd(blocks[0], used), blocks[1..]);
      JoinConcat(BlockPieces(c, used, blocks[0]), PlanPieces(c, BlockEnd(blocks[0], used), blocks[1..]));
    }
  }

  lemma {:induction false} FirstCutCloses(c: Cuts, m: Machine, n: nat, r: nat)
    requires m.Running? && 1 <= n <= m.chunkSize && n <= SLICE && Whole(c, m, n)
    requires r == FirstCut(c, m.used, m.chunkSize, n)
    ensures Whole(c, m, r) && Closes(c, m, r)
    decreases m.chunkSize - n
  {
    if n != r {
      CutLater(c, m.used, m.chunkSize, n);
      WholeNext(c, m, n);
      FirstCutCloses(c, m, n + 1, r);
    } else {
      CutHere(c, m.used, m.chunkSize, n);
    }
  }

  lemma CutHere(c: Cuts, from: nat, left: nat, n: nat)
    requires 1 <= n <= left && n <= SLICE && FirstCut(c, from, left, n) == n
    ensures n == SLICE || n == left || Cut(c, from, from + n)
  {
  }

  lemma CutLater(c: Cuts, from: nat, left: nat, n: nat)
    requires 1 <= n <= left && n <= SLICE && FirstCut(c, from, left, n) != n
    ensures n < left && n < SLICE && !Cut(c, from, from + n)
    ensures FirstCut(c, from, left, n) == FirstCut(c, from, left, n + 1)
  {
  }

  lemma WholeNext(c: Cuts, m: Machine, n: nat)
    requires m.Running? && Whole(c, m, n) && n != SLICE && n != m.chunkSize && !Cut(c, m.used, m.used + n)
    ensures Whole(c, m, n + 1)
  {
  }

  predicate OpenPiece(u: bool) {
    true
  }

  /** The slice of a block with this much left ends behind n bytes. Sealed. */
  ghost predicate Ends(c: Cuts, from: nat, left: nat, n: nat) {
    forall u {:trigger OpenPiece(u)} :: OpenPiece(u) ==> 1 <= left && n == FirstCut(c, from, left, 1)
  }

  /** Sealed. */
  ghost predicate IsPieces(c: Cuts, from: nat, t: seq<byte>, ws: seq<seq<byte>>) {
    forall u {:trigger OpenPiece(u)} :: OpenPiece(u) ==> ws == Pieces(c, from, t)
  }

  lemma NextSlice(c: Cuts, at: nat, t: seq<byte>, ws: seq<seq<byte>>)
    returns (n: nat, first: seq<byte>, rest: seq<byte>, more: seq<seq<byte>>)
    requires t != [] && IsPieces(c, at, t, ws)
    ensures 1 <= n <= |t| && n <= SLICE && Ends(c, at, |t|, n) && first == t[..n] && rest == t[n..]
    ensures t == first + rest && IsPieces(c, at + n, rest, more) && ws == [first] + more
    ensures (rest == [] ==> ws == [t] && n == |t|)
  {
    assert OpenPiece(true);
    n := FirstCut(c, at, |t|, 1);
    first, rest := t[..n], t[n..];
    more := Pieces(c, at + n, rest);
    SplitAt(t, n);
    NothingMore(first);
  }

  predicate OpenRaw(u: bool) {
    true
  }

  /** In the stream a block's data t is `raw`. Sealed. */
  ghost predicate StandsFor(h: Host, state: PatchState, from: int, raw: seq<byte>, t: seq<byte>) {
    forall u {:trigger OpenRaw(u)} :: OpenRaw(u) ==>
      && |raw| == |t|
      && if state == DiffData then t == [] || (ReadOk(h, from, |t|) && Undone(h, from, raw, t)) else raw == t
  }

  predicate Undone(h: Host, from: int, raw: seq<byte>, t: seq<byte>)
    requires |raw| == |t| && ReadOk(h, from, |t|)
  {
    forall i :: 0 <= i < |t| ==> Patched(h, from + i, raw[i]) == t[i]
  }

  lemma DiffStands(h: Host, from: int, t: seq<byte>)
    requires t != [] ==> ReadOk(h, from, |t|)
    ensures StandsFor(h, DiffData, from, RoundTrip.Diff(h, from, t), t)
  {
  }

  lemma RawSlice(h: Host, m: Machine, raw: seq<byte>, t: seq<byte>)
    requires m.Running? && StandsFor(h, m.state, m.fromOffset, raw, t) && t != []
    ensures |raw| == |t| && (m.state == DiffData ==> ReadOk(h, m.fromOffset, |raw|))
    ensures Slice(h, m, raw) == t
  {
    assert OpenRaw(true);
  }

  lemma UpToFits(room: int, ws: seq<seq<byte>>)
    requires |Join(ws)| < room
    ensures UpTo(room, ws) == ws
  {
    UpToConcat(room, ws, []);
    assert ws + [] == ws;
  }

  /** The writes ws have been made, and then the machine is `next`, unless they did not fit. */
  function Went(room: int, ws: seq<seq<byte>>, next: Machine, writes: seq<seq<byte>>): Cutter {
    Cutter(if |Join(ws)| < room then next else BrokenIo(), [], writes + UpTo(room, ws))
  }

  /** One thing after another. */
  lemma WentThen(h: Host, c: Cuts, k: Cutter, a: seq<byte>, b: seq<byte>, room: int, room': int,
                 m1: Machine, m2: Machine, ws1: seq<seq<byte>>, ws2: seq<seq<byte>>)
    requires WfCutter(k) && Wf(m1) && CutAll(h, c, k, a) == Went(room, ws1, m1, k.writes) && room' == room - |Join(ws1)|
    requires room' > 0 ==> CutAll(h, c, Cutter(m1, [], k.writes + ws1), b) == Went(room', ws2, m2, k.writes + ws1)
    ensures CutAll(h, c, k, a + b) == Went(room, ws1 + ws2, m2, k.writes)
  {
    CutConcat(h, c, k, a, b);
    UpToConcat(room, ws1, ws2);
    JoinConcat(ws1, ws2);
    if room' > 0 {
      UpToFits(room, ws1);
      Assoc(k.writes, ws1, UpTo(room', ws2));
    } else {
      CutOver(h, c, CutAll(h, c, k, a), b);
    }
  }

  predicate OpenPlan(bs: seq<byte>, u: bool) {
    true
  }

  /** From the machine m the bytes make the writes ws and lead to `next`, unless the
      writes do not fit. Sealed. */
  ghost predicate Makes(h: Host, c: Cuts, m: Machine, writes: seq<seq<byte>>, bs: seq<byte>,
                        room: int, ws: seq<seq<byte>>, next: Machine) {
    forall u {:trigger OpenPlan(bs, u)} :: OpenPlan(bs, u) ==>
      && Wf(m) && Wf(next) && CutAll(h, c, Cutter(m, [], writes), bs) == Went(room, ws, next, writes)
  }

  lemma MakesConcat(h: Host, c: Cuts, m: Machine, writes: seq<seq<byte>>, room: int, a: seq<byte>, ws1: seq<seq<byte>>,
                    m1: Machine, b: seq<byte>, ws2: seq<seq<byte>>, m2: Machine, writes': seq<seq<byte>>, room': int)
    requires Makes(h, c, m, writes, a, room, ws1, m1)
    requires writes' == writes + ws1 && room' == room - |Join(ws1)|
    requires room' > 0 ==> Makes(h, c, m1, writes', b, room', ws2, m2)
    requires Wf(m2)
    ensures Makes(h, c, m, writes, a + b, room, ws1 + ws2, m2)
  {
    assert OpenPlan(a, true) && OpenPlan(b, true);
    WentThen(h, c, Cutter(m, [], writes), a, b, room, room', m1, m2, ws1, ws2);
  }

  // -- the parts of a plan -------------------------------------------------------------

  /** The machine has n bytes of a block to come. Sealed. */
  ghost predicate InData(h: Host, m: Machine, state: PatchState, from: int, at: nat, n: nat, room: int) {
    forall u {:trigger OpenPiece(u)} :: OpenPiece(u) ==>
      && Wf(m) && m.Running? && IsData(m.state) && room == h.room - |m.out| > 0
      && m.state == state && m.fromOffset == from && m.used == at && m.chunkSize == n
  }

  /** The machine after t. Sealed. */
  ghost predicate Ahead(m: Machine, t: seq<byte>, next: Machine) {
    forall u {:trigger OpenPiece(u)} :: OpenPiece(u) ==>
      m.Running? && IsData(m.state) && WfSize(m.size) && |t| <= m.chunkSize && next == Advanced(m, |t|, t)
  }

  /** The rest of a data block. */
  lemma {:induction false} DataSlices(h: Host, c: Cuts, m: Machine, state: PatchState, from: int, at: nat, t: seq<byte>,
                                      writes: seq<seq<byte>>, raw: seq<byte>, room: int, ws: seq<seq<byte>>,
                                      next: Machine)
    requires InData(h, m, state, from, at, |t|, room) && t != [] && Ahead(m, t, next) && Wf(next)
    requires StandsFor(h, state, from, raw, t) && IsPieces(c, at, t, ws)
    ensures Makes(h, c, m, writes, raw, room, ws, next)
    decreases |t|
  {
    var n, first, rest, more := NextSlice(c, at, t, ws);
    if rest == [] {
      OneSlice(h, c, m, state, from, at, |t|, t, writes, raw, room, next);
    } else {
      var mid, from' := DataNext(h, m, state, from, at, t, first, rest, room, next);
      var a, b := RawNext(h, state, from, t, raw, n, first, rest, from');
      OneSlice(h, c, m, state, from, at, |t|, first, writes, a, room, mid);
      if room > n {
        DataSlices(h, c, mid, state, from', at + n, rest, writes + [first], b, room - n, more, next);
      }
      SliceThen(h, c, m, writes, room, a, first, mid, b, more, next);
    }
  }

  lemma DataNext(h: Host, m: Machine, state: PatchState, from: int, at: nat, t: seq<byte>, first: seq<byte>,
                 rest: seq<byte>, room: int, next: Machine) returns (mid: Machine, from': int)
    requires InData(h, m, state, from, at, |t|, room) && Ahead(m, t, next)
    requires t == first + rest && first != [] && rest != []
    ensures Ahead(m, first, mid) && Ahead(mid, rest, next) && Wf(mid)
    ensures from' == if state == DiffData then from + |first| else from
    ensures room > |first| ==> InData(h, mid, state, from', at + |first|, |rest|, room - |first|)
  {
    assert OpenPiece(true);
    from' := if state == DiffData then from + |first| else from;
    mid := Advanced(m, |first|, first);
    AdvancedTwice(m, first, rest, t, mid);
  }

  lemma SliceThen(h: Host, c: Cuts, m: Machine, writes: seq<seq<byte>>, room: int, a: seq<byte>, w: seq<byte>,
                  mid: Machine, b: seq<byte>, ws: seq<seq<byte>>, next: Machine)
    requires Makes(h, c, m, writes, a, room, [w], mid) && Wf(next)
    requires room - |w| > 0 ==> Makes(h, c, mid, writes + [w], b, room - |w|, ws, next)
    ensures Makes(h, c, m, writes, a + b, room, [w] + ws, next)
  {
    JoinOne(w);
    MakesConcat(h, c, m, writes, room, a, [w], mid, b, ws, next, writes + [w], room - |w|);
  }

  lemma RawNext(h: Host, state: PatchState, from: int, t: seq<byte>, raw: seq<byte>, n: nat, first: seq<byte>,
                rest: seq<byte>, from': int) returns (a: seq<byte>, b: seq<byte>)
    requires StandsFor(h, state, from, raw, t) && 0 < n < |t| && first == t[..n] && rest == t[n..]
    requires from' == if state == DiffData then from + n else from
    ensures StandsFor(h, state, from, a, first) && StandsFor(h, state, from', b, rest) && raw == a + b
  {
    assert OpenRaw(true);
    a, b := raw[..n], raw[n..];
  }

  lemma OneSlice(h: Host, c: Cuts, m: Machine, state: PatchState, from: int, at: nat, n: nat, w: seq<byte>,
                 writes: seq<seq<byte>>, raw: seq<byte>, room: int, next: Machine)
    requires InData(h, m, state, from, at, n, room) && Ahead(m, w, next)
    requires 1 <= |w| <= n && |w| <= SLICE && Ends(c, at, n, |w|)
    requires StandsFor(h, state, from, raw, w)
    ensures Makes(h, c, m, writes, raw, room, [w], next)
  {
    assert OpenPiece(true);
    FirstCutCloses(c, m, 1, |w|);
    RawSlice(h, m, raw, w);
    CutSlice(h, c, m, raw, writes);
    JoinOne(w);
    assert [w][..0] == [];
  }

  lemma AdvancedTwice(m: Machine, a: seq<byte>, b: seq<byte>, t: seq<byte>, mid: Machine)
    requires Wf(m) && m.Running? && IsData(m.state) && |a| < m.chunkSize && |t| == m.chunkSize && t == a + b
    requires mid == Advanced(m, |a|, a)
    ensures mid.Running? && mid.state == m.state && mid.chunkSize == |b| && mid.used == m.used + |a|
    ensures mid.out == m.out + a
    ensures mid.fromOffset == if m.state == DiffData then m.fromOffset + |a| else m.fromOffset
    ensures Advanced(mid, |b|, b) == Advanced(m, |t|, t)
  {
    OffsetTwice(m.toOffset, |a|, |b|);
    Assoc(m.out, a, b);
  }

  lemma OffsetTwice(at: nat, a: nat, b: nat)
    ensures ((at + a) % SIZE_MOD + b) % SIZE_MOD == (at + (a + b)) % SIZE_MOD
  {
  }

  // -- a block, and a plan -----------------------------------------------------------------

  /** A size field, which writes nothing. */
  lemma FieldMakes(h: Host, c: Cuts, m: Machine, v: int, pack: seq<byte>, writes: seq<seq<byte>>, room: int,
                   next: Machine)
    requires Wf(m) && m.Running? && IsSize(m.state) && m.size == First && -0x800_0000 < v < 0x800_0000
    requires pack == PackSize(v) && room > 0 && next == Sized(h, m.(used := m.used + |pack|), v)
    ensures Makes(h, c, m, writes, pack, room, [], next)
  {
    ReadPacked(v);
    RoundTrip.SizeField(h, m, v, pack);
    CutSize(h, c, m, pack, writes);
    assert writes + [] == writes;
  }

  lemma PlainAdvanced(m: Machine, t: seq<byte>, next: Machine)
    requires Wf(m) && m.Running? && IsData(m.state) && m.chunkSize == |t| && m.toOffset == |m.out|
    requires |m.out| + |t| <= m.toSize < 0x800_0000 && m.size == First
    requires next == RoundTrip.At(RoundTrip.After(m.state), m.toSize, m.out + t,
                                  if m.state == DiffData then m.fromOffset + |t| else m.fromOffset, m.used + |t|)
    ensures Advanced(m, |t|, t) == next
  {
    assert (m.toOffset + |t|) % SIZE_MOD == |m.out + t|;
  }

  /** A diff block. */
  lemma DiffMakes(h: Host, c: Cuts, toSize: nat, out: seq<byte>, from: int, used: nat, t: seq<byte>,
           writes: seq<seq<byte>>, pack: seq<byte>, raw: seq<byte>, room: int, at: nat, next: Machine)
    requires |out| + |t| <= toSize < 0x800_0000 && room == h.room - |out| > 0
    requires pack == PackSize(|t|) && at == used + |pack|
    requires StandsFor(h, DiffData, from, raw, t) && |raw| == |t|
    requires next == RoundTrip.At(ExtraSize, toSize, out + t, from + |t|, at + |t|)
    ensures Makes(h, c, RoundTrip.At(DiffSize, toSize, out, from, used), writes, pack + raw, room, Pieces(c, at, t),
                  next)
  {
    if t == [] {
      assert out + t == out && pack + raw == pack;
      SizeMakes(h, c, DiffSize, toSize, out, from, used, 0, pack, writes, room, next);
    } else {
      SizeMakes(h, c, DiffSize, toSize, out, from, used, |t|, pack, writes, room,
                RoundTrip.Inside(DiffData, toSize, out, |t|, from, at));
      DataThen(h, c, RoundTrip.At(DiffSize, toSize, out, from, used), DiffData, toSize, out, from, t, writes, pack,
               raw, room, at, Pieces(c, at, t), next);
    }
  }

  /** An extra block. */
  lemma CopyMakes(h: Host, c: Cuts, toSize: nat, out: seq<byte>, from: int, used: nat, t: seq<byte>,
           writes: seq<seq<byte>>, pack: seq<byte>, raw: seq<byte>, room: int, at: nat, next: Machine)
    requires |out| + |t| <= toSize < 0x800_0000 && room == h.room - |out| > 0
    requires pack == PackSize(|t|) && at == used + |pack|
    requires StandsFor(h, ExtraData, from, raw, t) && |raw| == |t|
    requires next == RoundTrip.At(Adjustment, toSize, out + t, from, at + |t|)
    ensures Makes(h, c, RoundTrip.At(ExtraSize, toSize, out, from, used), writes, pack + raw, room, Pieces(c, at, t),
                  next)
  {
    if t == [] {
      assert out + t == out && pack + raw == pack;
      SizeMakes(h, c, ExtraSize, toSize, out, from, used, 0, pack, writes, room, next);
    } else {
      SizeMakes(h, c, ExtraSize, toSize, out, from, used, |t|, pack, writes, room,
                RoundTrip.Inside(ExtraData, toSize, out, |t|, from, at));
      DataThen(h, c, RoundTrip.At(ExtraSize, toSize, out, from, used), ExtraData, toSize, out, from, t, writes, pack,
               raw, room, at, Pieces(c, at, t), next);
    }
  }

  lemma DataThen(h: Host, c: Cuts, before: Machine, state: PatchState, toSize: nat, out: seq<byte>, from: int,
                 t: seq<byte>,
                 writes: seq<seq<byte>>, pack: seq<byte>, raw: seq<byte>, room: int, at: nat, ws: seq<seq<byte>>,
                 next: Machine)
    requires IsData(state) && t != [] && |out| + |t| <= toSize < 0x800_0000 && room == h.room - |out| > 0
    requires Makes(h, c, before, writes, pack, room, [], RoundTrip.Inside(state, toSize, out, |t|, from, at))
    requires StandsFor(h, state, from, raw, t) && IsPieces(c, at, t, ws)
    requires next == RoundTrip.At(RoundTrip.After(state), toSize, out + t,
                                  if state == DiffData then from + |t| else from, at + |t|)
    ensures Makes(h, c, before, writes, pack + raw, room, ws, next)
  {
    var m := RoundTrip.Inside(state, toSize, out, |t|, from, at);
    PlainAdvanced(m, t, next);
    DataSlices(h, c, m, state, from, at, t, writes, raw, room, ws, next);
    FieldThen(h, c, before, writes, room, pack, m, raw, ws, next);
  }

  lemma SizeMakes(h: Host, c: Cuts, state: PatchState, toSize: nat, out: seq<byte>, from: int, used: nat, n: nat,
                  pack: seq<byte>, writes: seq<seq<byte>>, room: int, next: Machine)
    requires |out| + n <= toSize < 0x800_0000 && room > 0 && (state == DiffSize || state == ExtraSize)
    requires pack == PackSize(n)
    requires next == if n == 0 then RoundTrip.At(RoundTrip.After(state), toSize, out, from, used + |pack|)
                     else RoundTrip.Inside(RoundTrip.DataOf(state), toSize, out, n, from, used + |pack|)
    ensures Makes(h, c, RoundTrip.At(state, toSize, out, from, used), writes, pack, room, [], next)
  {
    var m := RoundTrip.At(state, toSize, out, from, used);
    RoundTrip.SizedPlain(h, m.(used := used + |pack|), n);
    FieldMakes(h, c, m, n, pack, writes, room, next);
  }

  lemma FieldThen(h: Host, c: Cuts, m: Machine, writes: seq<seq<byte>>, room: int, a: seq<byte>,
                  m1: Machine, b: seq<byte>, ws: seq<seq<byte>>, m2: Machine)
    requires Makes(h, c, m, writes, a, room, [], m1) && Makes(h, c, m1, writes, b, room, ws, m2) && Wf(m2)
    ensures Makes(h, c, m, writes, a + b, room, ws, m2)
  {
    assert writes + [] == writes && [] + ws == ws;
    MakesConcat(h, c, m, writes, room, a, [], m1, b, ws, m2, writes, room);
  }

  lemma BlockMakes(h: Host, c: Cuts, toSize: nat, out: seq<byte>, from: int, used: nat, b: RoundTrip.Block,
                   writes: seq<seq<byte>>, room: int, bytes: seq<byte>, ws: seq<seq<byte>>, after: Machine)
    requires |out| + |b.diff| + |b.extra| <= toSize < 0x800_0000 && room == h.room - |out| > 0
    requires b.diff != [] ==> ReadOk(h, from, |b.diff|)
    requires -0x800_0000 < b.adjustment < 0x800_0000 && SeekOk(h, from + |b.diff| + b.adjustment)
    requires bytes == RoundTrip.BlockBytes(h, from, b) && ws == BlockPieces(c, used, b)
    requires after == RoundTrip.At(if |out + b.diff + b.extra| == toSize then Done else DiffSize,
                                   toSize, out + b.diff + b.extra, from + |b.diff| + b.adjustment, BlockEnd(b, used))
    ensures Makes(h, c, RoundTrip.At(DiffSize, toSize, out, from, used), writes, bytes, room, ws, after)
  {
    var out1, from1, used1 := out + b.diff, from + |b.diff|, DiffAt(b, used) + |b.diff|;
    var m1 := RoundTrip.At(ExtraSize, toSize, out1, from1, used1);
    var ws1, room1 := Pieces(c, DiffAt(b, used), b.diff), room - |b.diff|;
    JoinPieces(c, DiffAt(b, used), b.diff);
    DiffStands(h, from, b.diff);
    DiffMakes(h, c, toSize, out, from, used, b.diff, writes, PackSize(|b.diff|), RoundTrip.Diff(h, from, b.diff),
              room, DiffAt(b, used), m1);
    if room1 > 0 {
      ExtraMakes(h, c, toSize, out1, from1, used1, b, writes + ws1, room1, ExtraAt(b, used), after);
    }
    MakesConcat(h, c, RoundTrip.At(DiffSize, toSize, out, from, used), writes, room,
                RoundTrip.DiffPart(h, from, b.diff), ws1, m1, RoundTrip.ExtraPart(b.extra) + PackSize(b.adjustment),
                Pieces(c, ExtraAt(b, used), b.extra), after, writes + ws1, room1);
  }

  lemma ExtraMakes(h: Host, c: Cuts, toSize: nat, out: seq<byte>, from: int, used: nat, b: RoundTrip.Block,
                   writes: seq<seq<byte>>, room: int, at: nat, after: Machine)
    requires |out| + |b.extra| <= toSize < 0x800_0000 && room == h.room - |out| > 0
    requires -0x800_0000 < b.adjustment < 0x800_0000 && SeekOk(h, from + b.adjustment)
    requires at == used + |PackSize(|b.extra|)|
    requires after == RoundTrip.At(if |out + b.extra| == toSize then Done else DiffSize, toSize, out + b.extra,
                                   from + b.adjustment, at + |b.extra| + |PackSize(b.adjustment)|)
    ensures Makes(h, c, RoundTrip.At(ExtraSize, toSize, out, from, used), writes,
                  RoundTrip.ExtraPart(b.extra) + PackSize(b.adjustment), room, Pieces(c, at, b.extra), after)
  {
    var out1, used1, pack := out + b.extra, at + |b.extra|, PackSize(b.adjustment);
    var m1 := RoundTrip.At(Adjustment, toSize, out1, from, used1);
    var ws, room1 := Pieces(c, at, b.extra), room - |b.extra|;
    JoinPieces(c, at, b.extra);
    CopyMakes(h, c, toSize, out, from, used, b.extra, writes, PackSize(|b.extra|), b.extra, room, at, m1);
    if room1 > 0 {
      AdjustMakes(h, c, toSize, out1, from, used1, b.adjustment, pack, writes + ws, room1, after);
    }
    NothingMore(ws);
    MakesConcat(h, c, RoundTrip.At(ExtraSize, toSize, out, from, used), writes, room, RoundTrip.ExtraPart(b.extra),
                ws, m1, pack, [], after, writes + ws, room1);
  }

  lemma AdjustMakes(h: Host, c: Cuts, toSize: nat, out: seq<byte>, from: int, used: nat, v: int, pack: seq<byte>,
                    writes: seq<seq<byte>>, room: int, after: Machine)
    requires -0x800_0000 < v < 0x800_0000 && SeekOk(h, from + v) && pack == PackSize(v) && room > 0
    requires after == RoundTrip.At(if |out| == toSize then Done else DiffSize, toSize, out, from + v, used + |pack|)
    ensures Makes(h, c, RoundTrip.At(Adjustment, toSize, out, from, used), writes, pack, room, [], after)
  {
    FieldMakes(h, c, RoundTrip.At(Adjustment, toSize, out, from, used), v, pack, writes, room, after);
  }

  /** All the blocks. */
  lemma {:induction false} BlocksMake(h: Host, c: Cuts, toSize: nat, out: seq<byte>, from: int, used: nat,
      blocks: seq<RoundTrip.Block>, writes: seq<seq<byte>>, room: int, target: seq<byte>,
      bytes: seq<byte>, all: seq<seq<byte>>) returns (last: Machine)
    requires RoundTrip.ValidPlan(h, from, blocks) && target == RoundTrip.Target(blocks)
    requires |out + target| == toSize < 0x800_0000 && room == h.room - |out| > 0
    requires bytes == RoundTrip.Serialise(h, from, blocks) && all == PlanPieces(c, used, blocks)
    ensures Makes(h, c, RoundTrip.At(DiffSize, toSize, out, from, used), writes, bytes, room, all, last) && Wf(last)
    decreases blocks
  {
    var b, rest := blocks[0], blocks[1..];
    var out', from', used' := out + b.diff + b.extra, from + |b.diff| + b.adjustment, BlockEnd(b, used);
    var ws, room' := BlockPieces(c, used, b), room - |b.diff| - |b.extra|;
    var first := RoundTrip.BlockBytes(h, from, b);
    var m := RoundTrip.At(DiffSize, toSize, out, from, used);
    last := RoundTrip.At(if rest == [] then Done else DiffSize, toSize, out', from', used');
    RoundTrip.TargetNext(h, from, blocks, out, target, out');
    BlockMakes(h, c, toSize, out, from, used, b, writes, room, first, ws, last);
    if rest == [] {
      assert bytes == first && ws + [] == ws;
    } else {
      var mid, ws' := last, PlanPieces(c, used', rest);
      var more := RoundTrip.BytesNext(h, from, blocks, first, from');
      if room' > 0 {
        last := BlocksMake(h, c, toSize, out', from', used', rest, writes + ws, room', RoundTrip.Target(rest), more,
                           ws');
      }
      BlockThen(h, c, m, writes, room, used, b, first, ws, mid, more, ws', last, bytes, all);
    }
  }

  lemma BlockThen(h: Host, c: Cuts, m: Machine, writes: seq<seq<byte>>, room: int, used: nat, b: RoundTrip.Block,
                  first: seq<byte>, ws: seq<seq<byte>>, mid: Machine, more: seq<byte>, ws': seq<seq<byte>>,
                  last: Machine, bytes: seq<byte>, all: seq<seq<byte>>)
    requires Makes(h, c, m, writes, first, room, ws, mid) && ws == BlockPieces(c, used, b) && Wf(last)
    requires var room' := room - |b.diff| - |b.extra|;
      room' > 0 ==> Makes(h, c, mid, writes + ws, more, room', ws', last)
    requires bytes == first + more && all == ws + ws'
    ensures Makes(h, c, m, writes, bytes, room, all, last)
  {
    JoinBlock(c, used, b);
    MakesConcat(h, c, m, writes, room, first, ws, mid, more, ws', last, writes + ws, room - |b.diff| - |b.extra|);
  }

  /** The writes of a patch made from a plan: the slices of the plan, up to the first
      that does not fit. */
  lemma PlanCut(h: Host, f: Feed, target: seq<byte>, blocks: seq<RoundTrip.Block>, first: byte, q: seq<byte>, c: Cuts)
    requires target == RoundTrip.Target(blocks) && target != [] && |target| < 0x800_0000 && h.room > 0
    requires RoundTrip.ValidPlan(h, 0, blocks) && first / 16 % 8 == 0
    requires f.whole == RoundTrip.PatchFile(first, |target|, q)
    requires Decode(STATIC_CONFIG, q) == PackSize(0) + RoundTrip.Serialise(h, 0, blocks)
    requires c == Cuts(q, 2 + |PackSize(|target|)|, f.ends)
    ensures WriteList(h, f) == UpTo(h.room, PlanPieces(c, |PackSize(0)|, blocks))
  {
    FileCuts(h, f, |target|, first, q, c);
    StreamCut(h, c, target, blocks, PackSize(0), RoundTrip.Serialise(h, 0, blocks),
              PlanPieces(c, |PackSize(0)|, blocks));
  }

  lemma FileCuts(h: Host, f: Feed, toSize: nat, first: byte, q: seq<byte>, c: Cuts)
    requires toSize < 0x800_0000 && first / 16 % 8 == 0 && f.whole == RoundTrip.PatchFile(first, toSize, q)
    requires c == Cuts(q, 2 + |PackSize(toSize)|, f.ends)
    ensures WriteList(h, f) == CutAll(h, c, CutStart(toSize), Decode(STATIC_CONFIG, q)).writes
  {
    var n := 1 + |PackSize(toSize)|;
    RoundTrip.HeaderPacked(first, toSize, [0x44] + q);
    assert f.whole[n..] == [0x44] + q;
    FileParts(f.whole, n, q);
  }

  lemma StreamCut(h: Host, c: Cuts, target: seq<byte>, blocks: seq<RoundTrip.Block>, pack: seq<byte>, body: seq<byte>,
                  all: seq<seq<byte>>)
    requires target == RoundTrip.Target(blocks) && target != [] && |target| < 0x800_0000 && h.room > 0
    requires RoundTrip.ValidPlan(h, 0, blocks)
    requires pack == PackSize(0) && body == RoundTrip.Serialise(h, 0, blocks)
    requires all == PlanPieces(c, |pack|, blocks)
    ensures CutAll(h, c, CutStart(|target|), pack + body).writes == UpTo(h.room, all)
  {
    var m, mid := Started(|target|), RoundTrip.At(DiffSize, |target|, [], 0, |pack|);
    FieldMakes(h, c, m, 0, pack, [], h.room, mid);
    assert [] + target == target;
    var last := BlocksMake(h, c, |target|, [], 0, |pack|, blocks, [], h.room, target, body, all);
    FieldThen(h, c, m, [], h.room, pack, mid, body, all, last);
    assert OpenPlan(pack + body, true);
  }

  lemma FileParts(file: seq<byte>, n: nat, q: seq<byte>)
    requires n <= |file| && file[n..] == [0x44] + q
    ensures n < |file| && file[n] == 0x44 && file[n + 1..] == q
  {
    assert file[n] == file[n..][0];
    assert file[n + 1..] == file[n..][1..];
  }

  // -- when no chunk ends inside a slice ----------------------------------------------

  function SlicesOf(t: seq<byte>): seq<seq<byte>> {
    if t == [] then [] else if |t| <= SLICE then [t] else [t[..SLICE]] + SlicesOf(t[SLICE..])
  }

  function PlanWrites(blocks: seq<RoundTrip.Block>): seq<seq<byte>> {
    if blocks == [] then []
    else SlicesOf(blocks[0].diff) + SlicesOf(blocks[0].extra) + PlanWrites(blocks[1..])
  }

  lemma {:induction false} JoinSlices(t: seq<byte>)
    ensures Join(SlicesOf(t)) == t
    decreases |t|
  {
    if |t| > SLICE {
      JoinSlices(t[SLICE..]);
      JoinCons(t[..SLICE], SlicesOf(t[SLICE..]), t[SLICE..]);
      SplitAt(t, SLICE);
    } else if t != [] {
      JoinOne(t);
    }
  }

  /** Of n bytes that begin behind `from` decompressed ones, a chunk ends with whole slices. */
  predicate Aligned(c: Cuts, from: nat, n: nat) {
    && from + n <= Decodes(c, |c.q|)
    && forall k :: 0 < k <= |c.q| && k + c.at in c.ends && from < Decodes(c, k) < from + n ==>
         (Decodes(c, k) - from) % SLICE == 0
  }

  predicate PlanAligned(c: Cuts, used: nat, blocks: seq<RoundTrip.Block>)
    decreases blocks
  {
    blocks == [] ||
    var b := blocks[0];
    && Aligned(c, DiffAt(b, used), |b.diff|) && Aligned(c, ExtraAt(b, used), |b.extra|)
    && PlanAligned(c, BlockEnd(b, used), blocks[1..])
  }

  lemma {:induction false} FirstCutIs(c: Cuts, from: nat, left: nat, n: nat, r: nat)
    requires 1 <= n <= r <= left && r <= SLICE
    requires forall j :: n <= j < r ==> !CutsAfter(c, from, j)
    requires r == SLICE || r == left || CutsAfter(c, from, r)
    ensures FirstCut(c, from, left, n) == r
    decreases r - n
  {
    if n < r {
      assert !CutsAfter(c, from, n);
      FirstCutIs(c, from, left, n + 1, r);
    }
  }

  lemma NotEarlier(c: Cuts, from: nat, n: nat, j: nat)
    requires Aligned(c, from, n) && 0 < j < n && j < SLICE
    ensures !CutsAfter(c, from, j)
  {
    assert j % SLICE == j;
  }

  lemma AlignedRest(c: Cuts, from: nat, n: nat)
    requires Aligned(c, from, n) && n > SLICE
    ensures Aligned(c, from + SLICE, n - SLICE)
  {
    forall k | 0 < k <= |c.q| && k + c.at in c.ends && from + SLICE < Decodes(c, k) < from + n
      ensures (Decodes(c, k) - (from + SLICE)) % SLICE == 0
    {
      ModShift(Decodes(c, k) - from, Decodes(c, k) - (from + SLICE), SLICE, 1);
    }
  }

  lemma {:induction false} AlignedPieces(c: Cuts, from: nat, t: seq<byte>)
    requires Aligned(c, from, |t|)
    ensures Pieces(c, from, t) == SlicesOf(t)
    decreases |t|
  {
    if t != [] {
      var n := if |t| < SLICE then |t| else SLICE;
      AlignedCut(c, from, |t|, n);
      if |t| > SLICE {
        AlignedRest(c, from, |t|);
        AlignedPieces(c, from + SLICE, t[SLICE..]);
      } else {
        LastPiece(c, from, t);
      }
    }
  }

  lemma LastPiece(c: Cuts, at: nat, t: seq<byte>)
    requires t != [] && FirstCut(c, at, |t|, 1) == |t|
    ensures Pieces(c, at, t) == [t]
  {
    assert t[..|t|] == t && t[|t|..] == [];
  }

  lemma AlignedCut(c: Cuts, from: nat, left: nat, n: nat)
    requires Aligned(c, from, left) && 1 <= left && n == if left < SLICE then left else SLICE
    ensures FirstCut(c, from, left, 1) == n
  {
    forall j | 1 <= j < n ensures !CutsAfter(c, from, j) {
      NotEarlier(c, from, left, j);
    }
    FirstCutIs(c, from, left, 1, n);
  }

  /** Then the writes are the slices of the plan alone. */
  lemma {:induction false} AlignedPlan(c: Cuts, used: nat, blocks: seq<RoundTrip.Block>)
    requires PlanAligned(c, used, blocks)
    ensures PlanPieces(c, used, blocks) == PlanWrites(blocks)
    decreases blocks
  {
    if blocks != [] {
      AlignedPieces(c, DiffAt(blocks[0], used), blocks[0].diff);
      AlignedPieces(c, ExtraAt(blocks[0], used), blocks[0].extra);
      AlignedPlan(c, BlockEnd(blocks[0], used), blocks[1..]);
    }
  }

  /** In a patch of one chunk no chunk ends inside a slice. */
  lemma OneChunk(c: Cuts, used: nat, h: Host, from: int, blocks: seq<RoundTrip.Block>)
    requires c.ends == {} && RoundTrip.ValidPlan(h, from, blocks)
    requires used + |RoundTrip.Serialise(h, from, blocks)| <= Decodes(c, |c.q|)
    ensures PlanAligned(c, used, blocks)
    decreases blocks
  {
    var b, rest := blocks[0], blocks[1..];
    if rest != [] {
      OneChunk(c, BlockEnd(b, used), h, from + |b.diff| + b.adjustment, rest);
    }
  }
}
