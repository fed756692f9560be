/** Facts about the one-pass meaning: how it extends, slices, and what it accounts for. */
module PatchFacts {
  import opened Bytes
  import opened HeatshrinkSpec
  import opened Varint
  import opened PatchSpec

  // -- extending the input -----------------------------------------------------

  lemma DropPrefix(a: seq<byte>, b: seq<byte>)
    requires a != []
    ensures (a + b)[0] == a[0] && (a + b)[1..] == a[1..] + b
  {
  }

  /** A machine that is done or broken stays as it is. */
  lemma RunOver(h: Host, m: Machine, a: seq<byte>, b: seq<byte>)
    requires Wf(m) && Over(RunStream(h, m, a))
    ensures RunStream(h, m, a + b) == RunStream(h, m, a)
  {
    if !Over(m) {
      DropPrefix(a, b);
      if GoodWindow(a[0]) {
        var before, after := Decode(STATIC_CONFIG, a[1..]), Decode(STATIC_CONFIG, a[1..] + b);
        DecodeMonotone(STATIC_CONFIG, a[1..], b);
        assert after == before + after[|before|..];
        ConsumeConcat(h, m, before, after[|before|..]);
        ConsumeOver(h, RunStream(h, m, a), after[|before|..]);
      }
    }
  }

  lemma EnoughMonotone(a: seq<byte>, b: seq<byte>, n: nat)
    requires Enough(a, n)
    ensures Enough(a + b, n)
  {
    if n > 0 {
      DropPrefix(a, b);
      DecodeMonotone(STATIC_CONFIG, a[1..], b);
    }
  }

  /** An error is final, whatever follows. */
  lemma VerdictBroken(h: Host, m0: Machine, a: seq<byte>, b: seq<byte>)
    requires Wf(m0) && RunStream(h, m0, a).Broken?
    ensures Verdict(h, m0, a + b) == Outcome(RunStream(h, m0, a).error, RunStream(h, m0, a).written)
  {
    RunOver(h, m0, a, b);
  }

  /** Bytes after the end are reported. */
  lemma VerdictTrailing(h: Host, m0: Machine, a: seq<byte>, b: seq<byte>)
    requires Wf(m0) && b != []
    requires var m := RunStream(h, m0, a); m.Running? && m.state == Done && Enough(a, m.used)
    ensures Verdict(h, m0, a + b) == Outcome(ALREADY_DONE, RunStream(h, m0, a).out)
  {
    RunOver(h, m0, a, b);
    var m := RunStream(h, m0, a);
    assert (a + b)[..|a + b| - 1] == a + b[..|b| - 1];
    EnoughMonotone(a, b[..|b| - 1], m.used);
  }

  // -- bytes used ----------------------------------------------------------------

  /** Every byte offered is used until the machine is done or broken. */
  lemma {:induction false} UsedAll(h: Host, m: Machine, bs: seq<byte>)
    requires Wf(m)
    ensures var r := ConsumeAll(h, m, bs);
            r.Running? ==> m.Running? && r.used <= m.used + |bs| && (!Over(r) ==> r.used == m.used + |bs|)
  {
    if bs != [] {
      UsedAll(h, m, bs[..|bs| - 1]);
      UsedOne(h, ConsumeAll(h, m, bs[..|bs| - 1]), bs[|bs| - 1]);
    }
  }

  lemma UsedOne(h: Host, m: Machine, b: byte)
    requires Wf(m)
    ensures var r := Consume(h, m, b);
            r.Running? ==> m.Running? && r.used == (if Over(m) then m.used else m.used + 1)
  {
  }

  // -- data in slices ---------------------------------------------------------------

  /** The target bytes a slice of data stands for. */
  function Slice(h: Host, m: Machine, bs: seq<byte>): (r: seq<byte>)
    requires m.Running? && (m.state == DiffData ==> ReadOk(h, m.fromOffset, |bs|))
    ensures |r| == |bs|
  {
    if m.state == DiffData then seq(|bs|, i requires 0 <= i < |bs| => Patched(h, m.fromOffset + i, bs[i]))
    else bs
  }

  /** The machine after n bytes of a block were used and `data` was written. */
  function Advanced(m: Machine, n: nat, data: seq<byte>): (r: Machine)
    requires m.Running? && IsData(m.state) && WfSize(m.size) && n <= m.chunkSize
    ensures Wf(r)
  {
    Normal(m.(out := m.out + data, toOffset := (m.toOffset + n) % SIZE_MOD, chunkSize := m.chunkSize - n,
              fromOffset := if m.state == DiffData then m.fromOffset + n else m.fromOffset, used := m.used + n))
  }

  /** Processing a slice of at most the bytes left, in one go. */
  function Slid(h: Host, m: Machine, bs: seq<byte>): Machine
    requires Wf(m) && m.Running? && IsData(m.state) && |bs| <= m.chunkSize
  {
    if (m.state == DiffData && !ReadOk(h, m.fromOffset, |bs|)) || !WriteOk(h, |m.out|, |bs|) then BrokenIo()
    else Advanced(m, |bs|, Slice(h, m, bs))
  }

  /** Slicing does not matter: a slice is its bytes one by one. */
  lemma {:induction false} ConsumeSlice(h: Host, m: Machine, bs: seq<byte>)
    requires Wf(m) && m.Running? && IsData(m.state) && 1 <= |bs| <= m.chunkSize
    ensures ConsumeAll(h, m, bs) == Slid(h, m, bs)
  {
    var init, b := bs[..|bs| - 1], bs[|bs| - 1];
    assert bs == init + [b];
    if init == [] {
      assert ConsumeAll(h, m, init) == m;
      assert bs == [b];
      SliceOne(h, m, b);
    } else {
      ConsumeSlice(h, m, init);
      SliceSnoc(h, m, init, b);
    }
  }

  lemma SliceOne(h: Host, m: Machine, b: byte)
    requires Wf(m) && m.Running? && IsData(m.state)
    ensures Consume(h, m, b) == Slid(h, m, [b])
  {
    if m.state == ExtraData || ReadOk(h, m.fromOffset, 1) {
      assert Slice(h, m, [b]) == [if m.state == DiffData then Patched(h, m.fromOffset, b) else b];
    }
  }

  lemma SliceSnoc(h: Host, m: Machine, init: seq<byte>, b: byte)
    requires Wf(m) && m.Running? && IsData(m.state) && |init| < m.chunkSize
    ensures Wf(Slid(h, m, init))
    ensures Consume(h, Slid(h, m, init), b) == Slid(h, m, init + [b])
  {
    var n := |init|;
    var mid := Slid(h, m, init);
    if mid.Running? {
      SliceOne(h, mid, b);
      if m.state == DiffData && ReadOk(h, m.fromOffset, n + 1) {
        assert Slice(h, m, init + [b]) == Slice(h, m, init) + [Patched(h, m.fromOffset + n, b)];
      }
      ModNext(m.toOffset, n);
    }
  }

  lemma ModNext(a: nat, n: nat)
    ensures ((a + n) % SIZE_MOD + 1) % SIZE_MOD == (a + n + 1) % SIZE_MOD
  {
  }

  // -- sizes ------------------------------------------------------------------------

  /** What a size field read as r makes of the machine. */
  predicate SizeTook(h: Host, m: Machine, r: SizeResult, used: nat, after: Machine)
    requires Wf(m) && m.Running? && IsSize(m.state)
  {
    match r
    case Partial(s) => WfSize(s) && after == m.(size := s, used := used)
    case Overflow => after == Broken(CORRUPT_PATCH_OVERFLOW, m.out)
    case Complete(v) =>
      -0x800_0000 < v < 0x800_0000 && after == Sized(h, m.(size := First, used := used), v)
  }

  /** A size field is its bytes one by one. */
  lemma {:induction false} ConsumeSize(h: Host, m: Machine, bs: seq<byte>, r: SizeResult, used: nat)
    requires Wf(m) && m.Running? && IsSize(m.state) && r == ReadSize(m.size, bs) && used == m.used + |bs|
    requires bs != [] ==> ReadSize(m.size, bs[..|bs| - 1]).Partial?
    ensures SizeTook(h, m, r, used, ConsumeAll(h, m, bs))
  {
    if bs != [] {
      var init, b := bs[..|bs| - 1], bs[|bs| - 1];
      var before := ConsumeAll(h, m, init);
      ConsumeSize(h, m, init, ReadSize(m.size, init), used - 1);
      SizeNext(h, m, ReadSize(m.size, init), before, b, r, used);
    }
  }

  lemma SizeNext(h: Host, m: Machine, s: SizeResult, before: Machine, b: byte, r: SizeResult, used: nat)
    requires Wf(m) && m.Running? && IsSize(m.state) && used > 0
    requires s.Partial? && SizeTook(h, m, s, used - 1, before) && r == SizeByte(s.state, b)
    ensures Wf(before) && SizeTook(h, m, r, used, Consume(h, before, b))
  {
    SizeOne(h, m, before, b, r);
  }

  lemma SizeOne(h: Host, m: Machine, before: Machine, b: byte, r: SizeResult)
    requires Wf(m) && m.Running? && IsSize(m.state)
    requires before.Running? && WfSize(before.size) && before == m.(size := before.size, used := before.used)
    requires r == SizeByte(before.size, b)
    ensures SizeTook(h, m, r, before.used + 1, ConsumeSizeByte(h, before, b))
  {
    SizeByteBound(before.size, b);
  }

  // -- accounting --------------------------------------------------------------------

  /** Sizes are below 2^27, so a room this large cannot hold a wrapped block. */
  const MAX_ROOM: int := 0xF800_0000

  /** What every reachable machine satisfies. The exception is a data block whose
      size was negative: read as a size_t it is too large ever to be finished. */
  predicate Accounted(h: Host, m: Machine) {
    match m
    case Broken(error, _) => error < 0
    case Running(state, _, toSize, toOffset, chunkSize, _, used, out) =>
      && toOffset == |out| <= used
      && (out != [] ==> |out| < h.room)
      && (toOffset + chunkSize <= toSize || (IsData(state) && toOffset + chunkSize >= MAX_ROOM))
      && (state == Done ==> toOffset == toSize)
  }

  lemma SizeByteAccounted(h: Host, m: Machine, b: byte)
    requires Wf(m) && m.Running? && IsSize(m.state) && Accounted(h, m) && h.room <= MAX_ROOM
    ensures Accounted(h, ConsumeSizeByte(h, m, b))
  {
    SizeOne(h, m, m, b, SizeByte(m.size, b));
    TookAccounted(h, m, SizeByte(m.size, b), m.used + 1, ConsumeSizeByte(h, m, b));
  }

  lemma TookAccounted(h: Host, m: Machine, r: SizeResult, used: nat, after: Machine)
    requires Wf(m) && m.Running? && IsSize(m.state) && Accounted(h, m) && h.room <= MAX_ROOM && used >= m.used
    requires SizeTook(h, m, r, used, after)
    ensures Accounted(h, after)
  {
    if r.Complete? {
      SizedAccounted(h, m.(size := First, used := used), r.size);
    }
  }

  lemma SizedAccounted(h: Host, m: Machine, v: int)
    requires Wf(m) && m.Running? && IsSize(m.state) && Accounted(h, m) && h.room <= MAX_ROOM
    requires -0x800_0000 < v < 0x800_0000
    ensures Accounted(h, Sized(h, m, v))
  {
  }

  lemma DataByteAccounted(h: Host, m: Machine, b: byte)
    requires Wf(m) && m.Running? && IsData(m.state) && Accounted(h, m) && h.room <= MAX_ROOM
    ensures Accounted(h, ConsumeDataByte(h, m, b))
  {
  }

  lemma {:induction false} AllAccounted(h: Host, m: Machine, bs: seq<byte>)
    requires Wf(m) && Accounted(h, m) && h.room <= MAX_ROOM
    ensures Accounted(h, ConsumeAll(h, m, bs))
  {
    if bs != [] {
      AllAccounted(h, m, bs[..|bs| - 1]);
      var before, b := ConsumeAll(h, m, bs[..|bs| - 1]), bs[|bs| - 1];
      if !Over(before) {
        if IsData(before.state) {
          DataByteAccounted(h, before, b);
        } else {
          SizeByteAccounted(h, before, b);
        }
      }
    }
  }

  lemma {:induction false} SameTarget(h: Host, m: Machine, bs: seq<byte>)
    requires Wf(m)
    ensures ConsumeAll(h, m, bs).Running? ==> m.Running? && ConsumeAll(h, m, bs).toSize == m.toSize
  {
    if bs != [] {
      SameTarget(h, m, bs[..|bs| - 1]);
      SameTargetOne(h, ConsumeAll(h, m, bs[..|bs| - 1]), bs[|bs| - 1]);
    }
  }

  lemma SameTargetOne(h: Host, m: Machine, b: byte)
    requires Wf(m)
    ensures Consume(h, m, b).Running? ==> m.Running? && Consume(h, m, b).toSize == m.toSize
  {
  }

  /** A patch that succeeds has written exactly as many bytes as it announces and
      returns, whatever the signs of its size fields; at most 64 for each of its
      own bytes. */
  lemma SuccessAccounting(h: Host, patch: seq<byte>)
    requires h.room <= MAX_ROOM && Apply(h, patch).result >= 0
    ensures Header(patch).HeaderOk? && Header(patch).toSize == Apply(h, patch).result
    ensures |Apply(h, patch).out| == Apply(h, patch).result
    ensures |Apply(h, patch).out| <= 64 * |patch|
  {
    HeaderErrors(patch);
    var toSize, stream := Header(patch).toSize, patch[Header(patch).length..];
    if toSize > 0 && stream != [] {
      var bs := Decode(STATIC_CONFIG, stream[1..]);
      AllAccounted(h, Started(toSize), bs);
      SameTarget(h, Started(toSize), bs);
      UsedAll(h, Started(toSize), bs);
      ExpansionBound(stream[1..]);
    }
  }

  /** The status of a success is the announced size. */
  lemma SuccessHeader(h: Host, patch: seq<byte>)
    requires Apply(h, patch).result > 0
    ensures Header(patch).HeaderOk? && Header(patch).toSize == Apply(h, patch).result
  {
    HeaderErrors(patch);
    var toSize, stream := Header(patch).toSize, patch[Header(patch).length..];
    if toSize > 0 && stream != [] {
      SameTarget(h, Started(toSize), Decode(STATIC_CONFIG, stream[1..]));
      AllErrors(h, Started(toSize), Decode(STATIC_CONFIG, stream[1..]));
    }
  }

  predicate IsHeaderError(error: int) {
    error == -3 || error == -18 || error == -25
  }

  lemma HeaderErrors(patch: seq<byte>)
    ensures Header(patch).HeaderError? ==> IsHeaderError(Header(patch).code)
  {
    if |patch| > 1 {
      HeaderTailErrors(patch, 2, patch[1] % 64, 6);
    }
  }

  lemma {:induction false} HeaderTailErrors(p: seq<byte>, i: nat, value: nat, offset: nat)
    ensures HeaderTail(p, i, value, offset).HeaderError? ==> IsHeaderError(HeaderTail(p, i, value, offset).code)
    decreases |p| - i
  {
    if i < |p| && !IsOverflow(offset) && p[i] >= 128 {
      HeaderTailErrors(p, i + 1, value + p[i] % 128 * Pow2(offset), offset + 7);
    }
  }

  /** The bytes written stay in the slot, without filling it. */
  predicate Fits(h: Host, m: Machine) {
    var out := if m.Running? then m.out else m.written;
    out == [] || |out| < h.room
  }

  lemma {:induction false} AllFits(h: Host, m: Machine, bs: seq<byte>)
    requires Wf(m) && Fits(h, m)
    ensures Fits(h, ConsumeAll(h, m, bs))
  {
    if bs != [] {
      AllFits(h, m, bs[..|bs| - 1]);
      FitsOne(h, ConsumeAll(h, m, bs[..|bs| - 1]), bs[|bs| - 1]);
    }
  }

  lemma FitsOne(h: Host, m: Machine, b: byte)
    requires Wf(m) && Fits(h, m)
    ensures Fits(h, Consume(h, m, b))
  {
    if !Over(m) && IsSize(m.state) {
      SizeByteBound(m.size, b);
    }
  }

  lemma OutputFits(h: Host, patch: seq<byte>)
    ensures Apply(h, patch).out == [] || |Apply(h, patch).out| < h.room
  {
    if Header(patch).HeaderOk? && Header(patch).length < |patch| {
      var stream := patch[Header(patch).length..];
      AllFits(h, Started(Header(patch).toSize), Decode(STATIC_CONFIG, stream[1..]));
    }
  }

  /** The error codes of the machine. */
  predicate IsError(error: int) {
    error == -1 || error == -9 || error == -10 || error == -25
  }

  /** Every status of a broken machine is one of them. */
  lemma {:induction false} AllErrors(h: Host, m: Machine, bs: seq<byte>)
    requires Wf(m) && (m.Broken? ==> IsError(m.error))
    ensures var r := ConsumeAll(h, m, bs); r.Broken? ==> IsError(r.error)
  {
    if bs != [] {
      AllErrors(h, m, bs[..|bs| - 1]);
      ErrorOne(h, ConsumeAll(h, m, bs[..|bs| - 1]), bs[|bs| - 1]);
    }
  }

  lemma ErrorOne(h: Host, m: Machine, b: byte)
    requires Wf(m) && (m.Broken? ==> IsError(m.error))
    ensures Consume(h, m, b).Broken? ==> IsError(Consume(h, m, b).error)
  {
  }
}
