/** How a run fails while its chunks are offered. A step is taken only while the chunk
    at hand has bytes left, so what begins with the last byte taken is left pending. */
module PatchHalts {
  import opened Bytes
  import opened HeatshrinkSpec
  import opened Varint
  import opened PatchSpec
  import opened PatchFacts
  import opened PatchSlices
  import opened PatchRuns
  import opened FlashSpec

  /** The bytes read of a size field. */
  function FieldBytes(s: SizeState): nat {
    match s
    case First => 0
    case More(_, offset, _) => (offset + 1) / 7
  }

  /** The decompressed bytes before the slice or the size field at hand. */
  function UnitStart(k: Cutter): nat
    requires k.m.Running?
  {
    var n := if IsSize(k.m.state) then FieldBytes(k.m.size) else 0;
    if n <= k.m.used then k.m.used - n else 0
  }

  /** The decompressed bytes before the slice or the size field that broke the machine. */
  function BreakStart(h: Host, c: Cuts, k: Cutter, bs: seq<byte>): nat
    requires WfCutter(k)
  {
    if bs == [] then 0
    else
      var before := CutAll(h, c, k, bs[..|bs| - 1]);
      if before.m.Running? then UnitStart(before) else BreakStart(h, c, k, bs[..|bs| - 1])
  }

  /** The error with which a run stops while it is offered a stream, and None if it takes
      all of it: a step that fails began before the last byte was taken. */
  function HaltsIn(h: Host, c: Cuts, toSize: nat, stream: seq<byte>): Option<int> {
    if stream == [] then None
    else if toSize == 0 then Some(ALREADY_DONE)
    else if !GoodWindow(stream[0]) then Some(HEATSHRINK_HEADER)
    else
      var bs, before := Decode(STATIC_CONFIG, c.q), stream[..|stream| - 1];
      var r := CutAll(h, c, CutStart(toSize), bs);
      if r.m.Broken? then
        if Enough(before, BreakStart(h, c, CutStart(toSize), bs)) then Some(r.m.error) else None
      else if r.m.state == Done && Enough(before, r.m.used) then Some(ALREADY_DONE)
      else None
  }

  function Halts(h: Host, f: Feed): Option<int> {
    if f.whole == [] then None
    else
      match Header(f.whole)
      case HeaderError(code) => Some(code)
      case HeaderOk(toSize, n) =>
        if n > |f.whole| then None else HaltsIn(h, CutsFrom(f, n + 1), toSize, f.whole[n..])
  }

  /** The status of a run over a patch whose end cannot be read. */
  function Unread(h: Host, f: Feed): int {
    match Halts(h, f)
    case None => IO_FAILED
    case Some(error) => error
  }

  lemma HaltsOf(h: Host, f: Feed, header: seq<byte>, toSize: nat, more: seq<byte>)
    requires IsHeader(header, toSize) && f.whole == header + more
    ensures Halts(h, f) == HaltsIn(h, CutsFrom(f, |header| + 1), toSize, more)
  {
    assert OpenHeader(true);
    HeaderPrefix(header, more);
    BackPart(header, more);
  }

  lemma BackPart<T>(a: seq<T>, b: seq<T>)
    ensures (a + b)[|a|..] == b
  {
  }

  // -- where a machine broke -------------------------------------------------------------

  lemma {:induction false} BreakOver(h: Host, c: Cuts, k: Cutter, a: seq<byte>, b: seq<byte>)
    requires WfCutter(k) && CutAll(h, c, k, a).m.Broken?
    ensures BreakStart(h, c, k, a + b) == BreakStart(h, c, k, a) && CutAll(h, c, k, a + b) == CutAll(h, c, k, a)
  {
    if b == [] {
      assert a + b == a;
    } else {
      BreakOver(h, c, k, a, b[..|b| - 1]);
      assert (a + b)[..|a + b| - 1] == a + b[..|b| - 1];
    }
  }

  lemma {:induction false} FieldGrows(s: SizeState, bs: seq<byte>, r: SizeResult)
    requires WfSize(s) && r == ReadSize(s, bs) && r.Partial?
    ensures WfSize(r.state) && FieldBytes(r.state) == FieldBytes(s) + |bs|
  {
    if bs != [] {
      var before := ReadSize(s, bs[..|bs| - 1]);
      FieldGrows(s, bs[..|bs| - 1], before);
      SizeByteBound(before.state, bs[|bs| - 1]);
    }
  }

  /** A slice or a size field breaks where it began, or where it was begun. */
  lemma UnitBreaks(h: Host, c: Cuts, k: Cutter, hist: seq<byte>, m: Machine, writes: seq<seq<byte>>, got: seq<byte>)
    requires WfCutter(k) && CutAll(h, c, k, hist) == Cutter(m, [], writes) && Wf(m) && m.Running? && got != []
    requires if IsData(m.state) then |got| <= m.chunkSize && Whole(c, m, |got|)
             else IsSize(m.state) && SizeField(m.size, got)
    ensures BreakStart(h, c, k, hist + got) <= m.used
  {
    var init := got[..|got| - 1];
    assert (hist + got)[..|hist + got| - 1] == hist + init;
    CutConcat(h, c, k, hist, init);
    if IsData(m.state) {
      CutRaw(h, c, m, init, writes);
    } else {
      FieldBegun(h, c, m, init, writes);
    }
  }

  lemma PartBreaks(h: Host, c: Cuts, toSize: nat, hist: seq<byte>, m: Machine, writes: seq<seq<byte>>, got: seq<byte>)
    requires CutsTo(h, c, toSize, hist, m, writes) && Wf(m) && m.Running? && got != []
    requires if IsData(m.state) then |got| <= m.chunkSize && IsSlice(c, m, |got|) else SizeBytes(m, got)
    ensures BreakStart(h, c, CutStart(toSize), hist + got) <= m.used
  {
    assert OpenCut(true);
    UnitBreaks(h, c, CutStart(toSize), hist, m, writes, got);
  }

  lemma FieldBegun(h: Host, c: Cuts, m: Machine, init: seq<byte>, writes: seq<seq<byte>>)
    requires Wf(m) && m.Running? && IsSize(m.state) && ReadSize(m.size, init).Partial?
    ensures var r := CutAll(h, c, Cutter(m, [], writes), init); r.m.Running? && UnitStart(r) <= m.used
  {
    var s := ReadSize(m.size, init);
    CutSize(h, c, m, init, writes);
    ConsumeSize(h, m, init, s, m.used + |init|);
    FieldGrows(m.size, init, s);
  }

  // -- nothing breaks before it begins -----------------------------------------------------

  /** Behind n bytes, and in no size field unless in a state that reads one. */
  predicate Behind(k: Cutter, n: nat) {
    k.m.Running? ==> UnitStart(k) >= n && (!IsSize(k.m.state) ==> k.m.size == First)
  }

  lemma BehindByte(h: Host, c: Cuts, k: Cutter, b: byte, n: nat)
    requires WfCutter(k) && Behind(k, n)
    ensures Behind(CutByte(h, c, k, b), n)
  {
    if !Over(k.m) && !IsData(k.m.state) {
      BehindSize(h, k.m, b, n, SizeByte(k.m.size, b));
    }
  }

  lemma BehindSize(h: Host, m: Machine, b: byte, n: nat, r: SizeResult)
    requires Wf(m) && m.Running? && IsSize(m.state) && Behind(Cutter(m, [], []), n) && r == SizeByte(m.size, b)
    ensures Behind(Cutter(ConsumeSizeByte(h, m, b), [], []), n)
  {
    SizeByteBound(m.size, b);
    if r.Partial? {
      assert FieldBytes(r.state) == FieldBytes(m.size) + 1;
    }
  }

  lemma {:induction false} BehindAll(h: Host, c: Cuts, k: Cutter, bs: seq<byte>, all: seq<byte>, n: nat)
    requires WfCutter(k) && bs <= all && Behind(CutAll(h, c, k, bs), n) && CutAll(h, c, k, bs).m.Running?
    ensures var r := CutAll(h, c, k, all); Behind(r, n) && (r.m.Broken? ==> BreakStart(h, c, k, all) >= n)
    decreases |all|
  {
    if |bs| == |all| {
      assert bs == all;
    } else {
      var init, last := all[..|all| - 1], all[|all| - 1];
      BehindAll(h, c, k, bs, init, n);
      BehindByte(h, c, CutAll(h, c, k, init), last, n);
    }
  }

  lemma FirstOutside(h: Host, c: Cuts, toSize: nat, hist: seq<byte>, m: Machine, writes: seq<seq<byte>>)
    requires CutsTo(h, c, toSize, hist, m, writes) && m.Running? && !IsSize(m.state)
    ensures m.size == First
  {
    assert OpenCut(true);
    BehindAll(h, c, CutStart(toSize), [], hist, 0);
  }

  lemma DataKeepsSize(h: Host, m: Machine, writes: seq<seq<byte>>, got: seq<byte>, after: Machine,
                      writes': seq<seq<byte>>)
    requires Wf(m) && m.Running? && !IsSize(m.state) && Reaches(h, m, got, after)
    requires Wrote(h, m, writes, got, after, writes')
    ensures after.Running? ==> after.size == m.size
  {
    assert OpenCut(true);
    if got == [] {
      assert OpenRun(true);
    }
  }

  lemma BrokenGot(h: Host, m: Machine, got: seq<byte>, after: Machine)
    requires Wf(m) && m.Running? && Reaches(h, m, got, after) && after.Broken?
    ensures got != []
  {
    assert OpenRun(true);
  }

  // -- a run that is somewhere -------------------------------------------------------------

  /** Without its last byte the stream still gives n bytes, if an earlier part does. */
  lemma StillEnough(stream: seq<byte>, rest: seq<byte>, decoded: seq<byte>, n: nat)
    requires Gives(stream, decoded) && n <= |decoded| && rest != []
    ensures Enough((stream + rest)[..|stream + rest| - 1], n)
  {
    assert (stream + rest)[..|stream + rest| - 1] == stream + rest[..|rest| - 1];
    EnoughMonotone(stream, rest[..|rest| - 1], n);
  }

  lemma DecodedPart(f: Feed, header: seq<byte>, stream: seq<byte>, rest: seq<byte>, decoded: seq<byte>)
    requires f.whole == header + stream + rest && stream != [] && Gives(stream, decoded)
    ensures decoded <= Decode(STATIC_CONFIG, CutsFrom(f, |header| + 1).q)
  {
    TailOf(header, stream, rest, f.whole);
    DecodeMonotone(STATIC_CONFIG, stream[1..], rest);
  }

  /** A step that fails, begun with `rest` to come. */
  lemma HaltsBroken(h: Host, f: Feed, header: seq<byte>, toSize: nat, stream: seq<byte>, rest: seq<byte>,
                    decoded: seq<byte>, n: nat, bs: seq<byte>, all: seq<byte>, m: Machine, writes: seq<seq<byte>>)
    requires IsHeader(header, toSize) && f.whole == header + (stream + rest) && rest != []
    requires Gives(stream, decoded) && n <= |decoded| && GoodWindow((stream + rest)[0])
    requires all == Decode(STATIC_CONFIG, CutsFrom(f, |header| + 1).q) && bs <= all && m.Broken?
    requires CutsTo(h, CutsFrom(f, |header| + 1), toSize, bs, m, writes)
    requires BreakStart(h, CutsFrom(f, |header| + 1), CutStart(toSize), bs) <= n
    ensures Halts(h, f) == Some(m.error)
  {
    assert OpenCut(true);
    var c := CutsFrom(f, |header| + 1);
    assert all == bs + all[|bs|..];
    BreakOver(h, c, CutStart(toSize), bs, all[|bs|..]);
    StillEnough(stream, rest, decoded, BreakStart(h, c, CutStart(toSize), bs));
    HaltsOf(h, f, header, toSize, stream + rest);
    if toSize == 0 {
      CutOver(h, c, CutStart(toSize), bs);
    }
  }

  /** More of the patch behind its end. */
  lemma HaltsTrailing(h: Host, f: Feed, header: seq<byte>, toSize: nat, stream: seq<byte>, rest: seq<byte>,
                      decoded: seq<byte>, hist: seq<byte>, m: Machine, writes: seq<seq<byte>>)
    requires IsHeader(header, toSize) && f.whole == header + stream + rest && rest != []
    requires Gives(stream, decoded) && hist <= decoded && m.Running? && m.state == Done && m.used == |hist|
    requires CutsTo(h, CutsFrom(f, |header| + 1), toSize, hist, m, writes)
    ensures Halts(h, f) == Some(ALREADY_DONE)
  {
    assert OpenCut(true);
    var c := CutsFrom(f, |header| + 1);
    Assoc(header, stream, rest);
    HaltsOf(h, f, header, toSize, stream + rest);
    StillEnough(stream, rest, decoded, |hist|);
    if toSize > 0 {
      DecodedPart(f, header, stream, rest, decoded);
      var all := Decode(STATIC_CONFIG, c.q);
      assert all == hist + all[|hist|..];
      CutConcat(h, c, CutStart(toSize), hist, all[|hist|..]);
      CutOver(h, c, Cutter(m, [], writes), all[|hist|..]);
    }
  }

  lemma HaltsWindow(h: Host, f: Feed, header: seq<byte>, toSize: nat, taken: seq<byte>, rest: seq<byte>)
    requires IsHeader(header, toSize) && f.whole == header + taken + rest && |taken| == 1 && !GoodWindow(taken[0])
    requires toSize > 0
    ensures Halts(h, f) == Some(HEATSHRINK_HEADER)
  {
    Assoc(header, taken, rest);
    HaltsOf(h, f, header, toSize, taken + rest);
  }

  /** All of the stream has been taken without an error. */
  lemma HaltsNot(h: Host, f: Feed, header: seq<byte>, toSize: nat, stream: seq<byte>, decoded: seq<byte>,
                 hist: seq<byte>, m: Machine, writes: seq<seq<byte>>)
    requires IsHeader(header, toSize) && f.whole == header + stream && stream != []
    requires Gives(stream, decoded) && hist <= decoded && (hist == decoded || Needed(stream, |hist|))
    requires m.Running? && m.used == |hist| && (m.state == Done ==> Needed(stream, |hist|))
    requires m.size.More? ==> hist == decoded
    requires CutsTo(h, CutsFrom(f, |header| + 1), toSize, hist, m, writes)
    ensures Halts(h, f) == None
  {
    assert OpenCut(true);
    var c, k, all := CutsFrom(f, |header| + 1), Cutter(m, [], writes), decoded;
    NothingMore(header + stream);
    NothingMore(stream[1..]);
    TailOf(header, stream, [], f.whole);
    HaltsOf(h, f, header, toSize, stream);
    if toSize == 0 {
      CutOver(h, c, CutStart(0), hist);
    } else if hist != decoded {
      PendingHalts(h, c, toSize, stream, hist, all, k);
    }
  }

  /** What is pending begins with the last byte taken. */
  lemma PendingHalts(h: Host, c: Cuts, toSize: nat, stream: seq<byte>, hist: seq<byte>, all: seq<byte>, k: Cutter)
    requires stream != [] && toSize > 0 && GoodWindow(stream[0]) && all == Decode(STATIC_CONFIG, c.q)
    requires hist <= all && k == CutAll(h, c, CutStart(toSize), hist)
    requires k.m.Running? && k.raw == [] && k.m.used == |hist| && k.m.size == First && Needed(stream, |hist|)
    ensures HaltsIn(h, c, toSize, stream) == None
  {
    BehindAll(h, c, CutStart(toSize), hist, all, |hist|);
  }

  // -- what the error means ------------------------------------------------------------------

  /** The machine that has cut all of the stream is the one that the stream leads to. */
  lemma StreamMachine(h: Host, c: Cuts, toSize: nat, stream: seq<byte>, k: Cutter)
    requires stream != [] && c.q == stream[1..] && GoodWindow(stream[0]) && toSize > 0
    requires k == CutAll(h, c, CutStart(toSize), Decode(STATIC_CONFIG, c.q)) && k.raw == []
    ensures RunStream(h, Started(toSize), stream) == k.m && (k.m.Broken? ==> IsError(k.m.error))
  {
    CutConsume(h, c, CutStart(toSize), Decode(STATIC_CONFIG, c.q));
    AllErrors(h, Started(toSize), Decode(STATIC_CONFIG, c.q));
  }

  /** A machine that is done with less than the last byte. */
  lemma DoneEarly(h: Host, m0: Machine, before: seq<byte>, last: byte, more: seq<byte>, m: Machine)
    requires Wf(m0) && m == RunStream(h, m0, before + [last]) && m.Running? && m.state == Done && Enough(before, m.used)
    ensures Verdict(h, m0, before + [last] + more).result == ALREADY_DONE
  {
    RunOver(h, m0, before + [last], more);
    var rest := AllButLast(before, last, more);
    EnoughMonotone(before, rest, m.used);
    DoneVerdict(h, m0, before + [last] + more, m);
  }

  lemma DoneVerdict(h: Host, m0: Machine, stream: seq<byte>, m: Machine)
    requires Wf(m0) && m == RunStream(h, m0, stream) && m.Running? && m.state == Done
    requires stream != [] && Enough(stream[..|stream| - 1], m.used)
    ensures Verdict(h, m0, stream).result == ALREADY_DONE
  {
  }

  lemma AllButLast<T>(a: seq<T>, x: T, b: seq<T>) returns (rest: seq<T>)
    ensures (a + [x] + b)[..|a + [x] + b| - 1] == a + rest
  {
    rest := ([x] + b)[..|b|];
  }

  predicate IsHalt(error: int) {
    IsError(error) || error == -11 || error == -27
  }

  /** It is an error of the stream, whatever comes behind. */
  lemma HaltsStream(h: Host, c: Cuts, toSize: nat, stream: seq<byte>, more: seq<byte>)
    requires stream != [] && c.q == stream[1..] && HaltsIn(h, c, toSize, stream).Some?
    ensures var error := HaltsIn(h, c, toSize, stream).value;
      Verdict(h, Started(toSize), stream + more).result == error && IsHalt(error)
  {
    var m0, before, last := Started(toSize), stream[..|stream| - 1], stream[|stream| - 1];
    InitLast(stream);
    if toSize == 0 {
      DoneEarly(h, m0, before, last, more, m0);
    } else if !GoodWindow(stream[0]) {
      VerdictBroken(h, m0, stream, more);
    } else {
      var k := CutAll(h, c, CutStart(toSize), Decode(STATIC_CONFIG, c.q));
      StreamMachine(h, c, toSize, stream, k);
      if k.m.Broken? {
        VerdictBroken(h, m0, stream, more);
      } else {
        DoneEarly(h, m0, before, last, more, k.m);
      }
    }
  }

  lemma HaltsBehind(h: Host, f: Feed, more: seq<byte>, toSize: nat, n: nat)
    requires Header(f.whole) == Header(f.whole + more) == HeaderOk(toSize, n) && n <= |f.whole| && Halts(h, f).Some?
    ensures Apply(h, f.whole + more).result == Halts(h, f).value && IsHalt(Halts(h, f).value)
  {
    var stream, c := f.whole[n..], CutsFrom(f, n + 1);
    assert stream != [] ==> stream[1..] == c.q;
    assert (f.whole + more)[n..] == stream + more;
    HaltsStream(h, c, toSize, stream, more);
  }

  /** The error is the status of every patch that begins like this. */
  lemma HaltsFinal(h: Host, f: Feed, more: seq<byte>)
    requires Halts(h, f).Some? && HeaderDecided(f.whole)
    ensures Apply(h, f.whole + more).result == Halts(h, f).value
    ensures IsHalt(Halts(h, f).value) || IsHeaderError(Halts(h, f).value)
  {
    HeaderPrefix(f.whole, more);
    HeaderErrors(f.whole);
    if Header(f.whole).HeaderOk? {
      HaltsBehind(h, f, more, Header(f.whole).toSize, Header(f.whole).length);
    }
  }

  /** A patch that lacks only its end, or nothing, is offered without an error. */
  lemma OfferedWhole(h: Host, f: Feed)
    requires Apply(h, f.whole).result >= 0 || Apply(h, f.whole).result == -19
    ensures Halts(h, f) == None && Unread(h, f) == -10
  {
    HeaderErrors(f.whole);
    if Halts(h, f).Some? {
      HaltsFinal(h, f, []);
      NothingMore(f.whole);
    }
  }

  lemma UnreadNegative(h: Host, f: Feed)
    ensures Unread(h, f) < 0
  {
    HeaderErrors(f.whole);
    if Halts(h, f).Some? && HeaderDecided(f.whole) {
      HaltsFinal(h, f, []);
    }
  }
}
