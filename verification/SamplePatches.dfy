/** Patches written out to the last bit. A twin patch has two extra blocks, of
    128 * m + 127 and 128 * n + 126 bytes, and takes two bytes of compressed data for
    every 128 of them: no chunk ends inside a slice. */
module SamplePatches {
  import opened Bytes
  import opened HeatshrinkSpec
  import opened Varint
  import opened PatchSpec
  import opened FlashSpec
  import opened EraseAhead
  import opened PatchSlices
  import opened PatchPlans
  import opened Encoding
  import RoundTrip

  datatype Twin = Twin(v: seq<byte>, m: nat, n: nat)

  predicate Good(x: Twin) {
    |x.v| == SLICE && x.m >= 1 && x.n >= 1 && TargetSize(x) < 0x800_0000
  }

  function FirstSize(x: Twin): nat {
    SLICE * x.m + 127
  }

  function SecondSize(x: Twin): nat {
    SLICE * x.n + 126
  }

  function TargetSize(x: Twin): nat {
    FirstSize(x) + SecondSize(x)
  }

  /** The first block's data: v over and over, and at last without its last byte. */
  function FirstData(x: Twin): (t: seq<byte>)
    requires Good(x)
    ensures |t| == FirstSize(x)
  {
    Repeated(x.v, x.m) + x.v[..127]
  }

  /** The second block's data: the last 128 bytes of the first, over and over. */
  function SecondData(x: Twin): (t: seq<byte>)
    requires Good(x)
    ensures |t| == SecondSize(x)
  {
    Repeated(Turned(x.v), x.n) + Turned(x.v)[..126]
  }

  function Turned(v: seq<byte>): (w: seq<byte>)
    requires |v| == SLICE
    ensures |w| == SLICE
  {
    v[127..] + v[..127]
  }

  function Plan(x: Twin): seq<RoundTrip.Block>
    requires Good(x)
  {
    [RoundTrip.Block([], FirstData(x), 0), RoundTrip.Block([], SecondData(x), 0)]
  }

  /** The size fields in front of the first block's data, and in front of the second's. */
  function Head(x: Twin): seq<byte> {
    PackSize(0) + PackSize(0) + PackSize(FirstSize(x))
  }

  function Middle(x: Twin): seq<byte> {
    PackSize(0) + PackSize(0) + PackSize(SecondSize(x))
  }

  // -- the tokens ------------------------------------------------------------------------

  /** The last 128 bytes k times, and l of them once more. */
  function RunTokens(k: nat, l: nat): seq<Token> {
    Copies(k) + [BackRef(SLICE, l)]
  }

  /** The first bytes of the second block, from behind its size field. */
  function Across(x: Twin): Token {
    BackRef(SLICE + |Middle(x)|, SLICE)
  }

  function Opening(x: Twin): seq<Token> {
    Literals(Head(x) + x.v)
  }

  function Rest(x: Twin): seq<Token>
    requires Good(x)
  {
    RunTokens(x.m - 1, 127) + AfterFirst(x)
  }

  function AfterFirst(x: Twin): seq<Token>
    requires Good(x)
  {
    Literals(Middle(x)) + SecondTokens(x)
  }

  function SecondTokens(x: Twin): seq<Token>
    requires Good(x)
  {
    [Across(x)] + (RunTokens(x.n - 1, 126) + Literals(PackSize(0)))
  }

  lemma RunWf(k: nat, l: nat)
    requires 1 <= l <= SLICE
    ensures AllWf(RunTokens(k, l))
  {
    WfRef(SLICE, l);
  }

  lemma FieldSizes(x: Twin)
    requires Good(x)
    ensures |PackSize(0)| == 1 && |Head(x)| <= 6 && |Middle(x)| <= 6 && |PackSize(TargetSize(x))| <= 4
  {
    PackLength(FirstSize(x));
    PackLength(SecondSize(x));
    PackLength(TargetSize(x));
  }

  lemma TwinWf(x: Twin)
    requires Good(x)
    ensures AllWf(SecondTokens(x)) && AllWf(AfterFirst(x)) && AllWf(Rest(x)) && AllWf(Opening(x) + Rest(x))
  {
    FieldSizes(x);
    RunWf(x.m - 1, 127);
    RunWf(x.n - 1, 126);
    WfRef(SLICE + |Middle(x)|, SLICE);
  }

  lemma {:induction false} PackTailLength(n: nat, k: nat)
    requires k >= 1 && n < Pow2(7 * k)
    ensures |PackTail(n)| <= k
    decreases k
  {
    assert Pow2(7) == 128;
    if n >= 128 {
      if k > 1 {
        Pow2Add(7, 7 * (k - 1));
        PackTailLength(n / 128, k - 1);
      }
    }
  }

  lemma PackLength(n: nat)
    requires n < 0x800_0000
    ensures |PackSize(n)| <= 4
  {
    Pow2Add(7, 7);
    Pow2Add(14, 7);
    assert Pow2(7) == 128;
    PackTailLength(n / 64, 3);
  }

  function Data(x: Twin): seq<byte>
    requires Good(x)
  {
    TwinWf(x);
    Packed(EncodeTokens(STATIC_CONFIG, Opening(x) + Rest(x)))
  }

  /** The patch file, in heatshrink compression. */
  function File(x: Twin): seq<byte>
    requires Good(x)
  {
    RoundTrip.PatchFile(4, TargetSize(x), Data(x))
  }

  // -- what they decode to ----------------------------------------------------------------

  predicate OpenYield(u: bool) {
    true
  }

  /** Behind `hist` the tokens decode to the rest of `full`. Sealed. */
  ghost predicate Yields(hist: seq<byte>, ts: seq<Token>, full: seq<byte>) {
    forall u {:trigger OpenYield(u)} :: OpenYield(u) ==> AllWf(ts) && Expand(STATIC_CONFIG, hist, ts) == full
  }

  lemma YieldsThen(hist: seq<byte>, a: seq<Token>, mid: seq<byte>, b: seq<Token>, full: seq<byte>)
    requires Yields(hist, a, mid) && Yields(mid, b, full)
    ensures Yields(hist, a + b, full)
  {
    assert OpenYield(true);
    ExpandConcat(hist, a, b);
  }

  lemma YieldsLiterals(hist: seq<byte>, bs: seq<byte>)
    ensures Yields(hist, Literals(bs), hist + bs)
  {
    ExpandLiterals(hist, bs);
  }

  /** The last 128 bytes k more times, and l of them once more. */
  lemma YieldsRun(head: seq<byte>, v: seq<byte>, k: nat, l: nat, data: seq<byte>) returns (z: seq<byte>)
    requires |v| == SLICE && 1 <= l < SLICE && k >= 1 && data == Repeated(v, k) + v[..l]
    ensures Yields(head + v, RunTokens(k - 1, l), head + data) && head + data == z + (v[l..] + v[..l])
  {
    var a, b, more := v[..l], v[l..], Repeated(v, k - 1);
    var y := RepeatedEnd(v, k - 1);
    assert v == a + b;
    z := Rearranged(head, v, more, y, a, b);
    ExpandCopies(head, v, k - 1, head + v, head + v + more);
    ExpandRef(head + y, a, b, SLICE);
    YieldsThen(head + v, Copies(k - 1), head + v + more, [BackRef(SLICE, l)], head + data);
  }

  lemma Rearranged(head: seq<byte>, v: seq<byte>, more: seq<byte>, y: seq<byte>, a: seq<byte>, b: seq<byte>)
    returns (z: seq<byte>)
    requires v == a + b && v + more == y + v
    ensures head + v + more == head + y + a + b
    ensures head + y + a + b + a == head + (v + more + a) == z + (b + a)
  {
    Assoc(head, v, more);
    Assoc(head, y, v);
    Assoc(head + y, a, b);
    Assoc(head, v + more, a);
    z := head + y + a;
    Assoc(z, b, a);
  }

  /** The tokens of the second block, behind its size field. */
  lemma YieldsSecond(x: seq<byte>, w: seq<byte>, middle: seq<byte>, n: nat, data: seq<byte>, across: Token,
                     last: seq<byte>)
    requires |w| == SLICE && n >= 1 && |middle| <= SLICE && across == BackRef(SLICE + |middle|, SLICE)
    requires data == Repeated(w, n) + w[..126]
    ensures Yields(x + w + middle, [across] + (RunTokens(n - 1, 126) + Literals(last)), x + w + middle + data + last)
  {
    var hist, run := x + w + middle, RunTokens(n - 1, 126);
    ExpandRef(x, w, middle, SLICE + |middle|);
    var z := YieldsRun(hist, w, n, 126, data);
    YieldsLiterals(hist + data, last);
    YieldsThen(hist + w, run, hist + data, Literals(last), hist + data + last);
    YieldsThen(hist, [across], hist + w, run + Literals(last), hist + data + last);
  }

  lemma YieldsRest(head: seq<byte>, v: seq<byte>, m: nat, n: nat, first: seq<byte>, second: seq<byte>,
                   middle: seq<byte>,
                   across: Token, last: seq<byte>, tail: seq<Token>, ts: seq<Token>, full: seq<byte>)
    requires |v| == SLICE && m >= 1 && n >= 1 && |middle| <= SLICE && across == BackRef(SLICE + |middle|, SLICE)
    requires first == Repeated(v, m) + v[..127] && second == Repeated(Turned(v), n) + Turned(v)[..126]
    requires tail == [across] + (RunTokens(n - 1, 126) + Literals(last))
    requires ts == RunTokens(m - 1, 127) + (Literals(middle) + tail) && full == head + first + middle + second + last
    ensures Yields(head + v, ts, full)
  {
    var z := YieldsRun(head, v, m, 127, first);
    YieldsSecond(z, Turned(v), middle, n, second, across, last);
    YieldsLiterals(head + first, middle);
    YieldsThen(head + first, Literals(middle), head + first + middle, tail, full);
    YieldsThen(head + v, RunTokens(m - 1, 127), head + first, Literals(middle) + tail, full);
  }

  function Stream(x: Twin): seq<byte>
    requires Good(x)
  {
    Head(x) + FirstData(x) + Middle(x) + SecondData(x) + PackSize(0)
  }

  /** All of it. */
  lemma YieldsTwin(x: Twin)
    requires Good(x)
    ensures Yields([], Opening(x) + Rest(x), Stream(x))
  {
    var start, rest, full := Head(x) + x.v, Rest(x), Stream(x);
    FieldSizes(x);
    YieldsRest(Head(x), x.v, x.m, x.n, FirstData(x), SecondData(x), Middle(x), Across(x), PackSize(0), SecondTokens(x),
               rest, full);
    YieldsFromNothing(start, rest, full);
  }

  lemma YieldsFromNothing(start: seq<byte>, ts: seq<Token>, full: seq<byte>)
    requires Yields(start, ts, full)
    ensures Yields([], Literals(start) + ts, full)
  {
    YieldsLiterals([], start);
    assert [] + start == start;
    YieldsThen([], Literals(start), start, ts, full);
  }

  /** ... which is the serialised plan. */
  lemma TwinSerialised(h: Host, x: Twin)
    requires Good(x) && SeekOk(h, 0)
    ensures RoundTrip.ValidPlan(h, 0, Plan(x))
    ensures PackSize(0) + RoundTrip.Serialise(h, 0, Plan(x)) == Stream(x)
  {
    var plan, t1, t2 := Plan(x), FirstData(x), SecondData(x);
    TwinValid(h, x);
    ExtraBlock(h, plan[0]);
    ExtraBlock(h, plan[1]);
    assert plan[1..] == [plan[1]];
    Flattened(PackSize(0), PackSize(|t1|), t1, PackSize(|t2|), t2);
  }

  lemma TwinValid(h: Host, x: Twin)
    requires Good(x) && SeekOk(h, 0)
    ensures RoundTrip.ValidPlan(h, 0, Plan(x)) && RoundTrip.ValidPlan(h, 0, [Plan(x)[1]])
    ensures RoundTrip.Target(Plan(x)) == FirstData(x) + SecondData(x)
  {
    var plan := Plan(x);
    LastExtra(h, SecondData(x));
    FirstExtra(h, FirstData(x), [plan[1]]);
    assert plan == [plan[0]] + [plan[1]];
  }

  lemma FirstExtra(h: Host, t: seq<byte>, rest: seq<RoundTrip.Block>)
    requires RoundTrip.ValidPlan(h, 0, rest) && RoundTrip.Target(rest) != [] && SeekOk(h, 0)
    ensures RoundTrip.ValidPlan(h, 0, [RoundTrip.Block([], t, 0)] + rest)
    ensures RoundTrip.Target([RoundTrip.Block([], t, 0)] + rest) == t + RoundTrip.Target(rest)
  {
    assert ([RoundTrip.Block([], t, 0)] + rest)[1..] == rest;
    assert [] + t == t;
  }

  lemma LastExtra(h: Host, t: seq<byte>)
    requires SeekOk(h, 0)
    ensures RoundTrip.ValidPlan(h, 0, [RoundTrip.Block([], t, 0)]) && RoundTrip.Target([RoundTrip.Block([], t, 0)]) == t
  {
    var b := RoundTrip.Block([], t, 0);
    assert [b][1..] == [];
    assert [] + t + [] == t;
  }

  lemma ExtraBlock(h: Host, b: RoundTrip.Block)
    requires b.diff == [] && b.adjustment == 0
    ensures RoundTrip.BlockBytes(h, 0, b) == PackSize(0) + (PackSize(|b.extra|) + b.extra + PackSize(0))
  {
    assert RoundTrip.Diff(h, 0, []) == [];
    assert PackSize(0) + [] == PackSize(0);
  }

  lemma Flattened<T>(zero: seq<T>, p: seq<T>, t: seq<T>, q: seq<T>, u: seq<T>)
    ensures zero + ((zero + (p + t + zero)) + (zero + (q + u + zero))) ==
      zero + zero + p + t + (zero + zero + q) + u + zero
  {
    assert zero + ((zero + (p + t + zero)) + (zero + (q + u + zero))) ==
      zero + zero + p + t + zero + zero + q + u + zero;
  }

  /** The compressed data is what a host would make of the plan. */
  lemma TwinCompressed(h: Host, x: Twin) returns (pad: seq<bool>)
    requires Good(x) && SeekOk(h, 0)
    ensures RoundTrip.ValidPlan(h, 0, Plan(x)) && RoundTrip.Target(Plan(x)) == FirstData(x) + SecondData(x)
    ensures RoundTrip.Compresses(Data(x), Opening(x) + Rest(x), pad)
    ensures Expand(STATIC_CONFIG, [], Opening(x) + Rest(x)) == PackSize(0) + RoundTrip.Serialise(h, 0, Plan(x))
  {
    TwinWf(x);
    YieldsTwin(x);
    assert OpenYield(true);
    TwinSerialised(h, x);
    TwinValid(h, x);
    pad := PackedBits(EncodeTokens(STATIC_CONFIG, Opening(x) + Rest(x)));
  }

  // -- where their chunks end ---------------------------------------------------------------

  lemma RunSteps(at: nat, k: nat, l: nat, from: nat, n: nat)
    requires at >= from && (at - from) % SLICE == 0 && at + SLICE * k + l == from + n
    ensures Steps(at, RunTokens(k, l), from, n) && at + Spans(RunTokens(k, l)) == from + n
  {
    StepsCopies(at, k, from, n);
    ModShift(at + SLICE * k - from, at - from, SLICE, k);
    OneStep(at + SLICE * k, BackRef(SLICE, l), from, n);
    StepsConcat(at, Copies(k), [BackRef(SLICE, l)], from, n);
    SpansConcat(Copies(k), [BackRef(SLICE, l)]);
  }

  /** Behind the first 128 bytes of the first block nothing stops inside its slices ... */
  lemma FirstSteps(x: Twin, from: nat)
    requires Good(x)
    ensures Steps(from + SLICE, Rest(x), from, FirstSize(x))
  {
    RunSteps(from + SLICE, x.m - 1, 127, from, FirstSize(x));
    StepsOutside(from + FirstSize(x), AfterFirst(x), from, FirstSize(x));
    StepsConcat(from + SLICE, RunTokens(x.m - 1, 127), AfterFirst(x), from, FirstSize(x));
  }

  /** ... nor inside those of the second block. */
  lemma SecondSteps(x: Twin, at: nat, from: nat)
    requires Good(x) && from == at + SLICE * (x.m - 1) + 127 + |Middle(x)|
    ensures Steps(at, Rest(x), from, SecondSize(x))
  {
    var end, n, run := at + SLICE * (x.m - 1) + 127, SecondSize(x), RunTokens(x.m - 1, 127);
    RunSteps(at, x.m - 1, 127, at, end - at);
    StepsOutside(at, run, from, n);
    MiddleSteps(x, end, from);
    StepsConcat(at, run, AfterFirst(x), from, n);
  }

  lemma MiddleSteps(x: Twin, at: nat, from: nat)
    requires Good(x) && from == at + |Middle(x)|
    ensures Steps(at, AfterFirst(x), from, SecondSize(x))
  {
    SpansLiterals(Middle(x));
    StepsOutside(at, Literals(Middle(x)), from, SecondSize(x));
    SecondOnly(x, from);
    StepsConcat(at, Literals(Middle(x)), SecondTokens(x), from, SecondSize(x));
  }

  lemma SecondOnly(x: Twin, from: nat)
    requires Good(x)
    ensures Steps(from, SecondTokens(x), from, SecondSize(x))
  {
    var last, n, run := Literals(PackSize(0)), SecondSize(x), RunTokens(x.n - 1, 126);
    OneStep(from, Across(x), from, n);
    RunSteps(from + SLICE, x.n - 1, 126, from, n);
    StepsOutside(from + n, last, from, n);
    StepsConcat(from + SLICE, run, last, from, n);
    StepsConcat(from, [Across(x)], run + last, from, n);
  }

  lemma OpeningSize(x: Twin)
    requires Good(x)
    ensures AllWf(Opening(x)) && Encoded(Opening(x)) == 9 * (|Head(x)| + SLICE)
    ensures Spans(Opening(x)) == |Head(x)| + SLICE
  {
    ExpandLiterals([], Head(x) + x.v);
    SpansLiterals(Head(x) + x.v);
  }

  lemma RunSize(k: nat, l: nat)
    requires 1 <= l <= SLICE
    ensures AllWf(RunTokens(k, l)) && Encoded(RunTokens(k, l)) == 16 * k + 16
  {
    EncodeCopies(k);
    EncodedRef(SLICE, l);
    EncodedConcat(Copies(k), [BackRef(SLICE, l)]);
  }

  lemma SecondLength(x: Twin)
    requires Good(x)
    ensures AllWf(SecondTokens(x)) && Encoded(SecondTokens(x)) == 16 * x.n + 25
  {
    var run, last := RunTokens(x.n - 1, 126), Literals(PackSize(0));
    FieldSizes(x);
    ExpandLiterals([], PackSize(0));
    RunSize(x.n - 1, 126);
    EncodedConcat(run, last);
    EncodedRef(SLICE + |Middle(x)|, SLICE);
    EncodedConcat([Across(x)], run + last);
  }

  lemma RestSize(x: Twin)
    requires Good(x)
    ensures AllWf(Rest(x)) && Encoded(Rest(x)) == 16 * (x.m + x.n) + 25 + 9 * |Middle(x)|
  {
    SecondLength(x);
    ExpandLiterals([], Middle(x));
    EncodedConcat(Literals(Middle(x)), SecondTokens(x));
    RunSize(x.m - 1, 127);
    EncodedConcat(RunTokens(x.m - 1, 127), AfterFirst(x));
  }

  /** The file has two bytes for every 128 of the target, and at most 170 others. */
  lemma FileSize(x: Twin)
    requires Good(x)
    ensures |File(x)| <= 2 * (x.m + x.n) + 170
  {
    var ts := Opening(x) + Rest(x);
    OpeningSize(x);
    RestSize(x);
    EncodedConcat(Opening(x), Rest(x));
    FieldSizes(x);
    var pad := PackedBits(EncodeTokens(STATIC_CONFIG, ts));
  }

  /** No part of the compressed data behind its first 157 bytes ends inside a slice. */
  lemma TwinStops(x: Twin, c: Cuts, pad: seq<bool>, k: nat)
    requires Good(x) && |pad| < 8 && AllWf(Opening(x) + Rest(x)) && 157 <= k <= |c.q|
    requires Bits(c.q) == EncodeTokens(STATIC_CONFIG, Opening(x) + Rest(x)) + pad
    ensures NotInside(Decodes(c, k), |Head(x)|, FirstSize(x))
    ensures NotInside(Decodes(c, k), |Head(x)| + FirstSize(x) + |Middle(x)|, SecondSize(x))
  {
    var from, rest := |Head(x)|, Rest(x);
    TwinWf(x);
    OpeningSize(x);
    FieldSizes(x);
    EncodeConcat(Opening(x), rest);
    Assoc(EncodeTokens(STATIC_CONFIG, Opening(x)), EncodeTokens(STATIC_CONFIG, rest), pad);
    var p := DecodePrefix(c.q, Opening(x), rest, pad, k);
    StopsAt(x, p, from, from + SLICE);
  }

  lemma StopsAt(x: Twin, p: seq<Token>, from: nat, at: nat)
    requires Good(x) && p <= Rest(x) && at == from + SLICE
    ensures NotInside(at + Spans(p), from, FirstSize(x))
    ensures NotInside(at + Spans(p), from + FirstSize(x) + |Middle(x)|, SecondSize(x))
  {
    FirstSteps(x, from);
    StepsPrefix(at, Rest(x), p, from, FirstSize(x));
    SecondSteps(x, at, from + FirstSize(x) + |Middle(x)|);
    StepsPrefix(at, Rest(x), p, from + FirstSize(x) + |Middle(x)|, SecondSize(x));
  }

  lemma BlockAligned(c: Cuts, from: nat, n: nat)
    requires from + n <= Decodes(c, |c.q|)
    requires forall k :: 0 < k <= |c.q| && k + c.at in c.ends ==> NotInside(Decodes(c, k), from, n)
    ensures Aligned(c, from, n)
  {
  }

  lemma TwinAligned(h: Host, x: Twin, c: Cuts, pad: seq<bool>)
    requires Good(x) && SeekOk(h, 0) && RoundTrip.Compresses(c.q, Opening(x) + Rest(x), pad)
    requires Decode(STATIC_CONFIG, c.q) == Stream(x)
    requires forall e :: e in c.ends ==> e >= 157 + c.at
    ensures PlanAligned(c, |PackSize(0)|, Plan(x))
  {
    var a, b := |Head(x)|, |Head(x)| + FirstSize(x) + |Middle(x)|;
    assert c.q[..|c.q|] == c.q;
    forall k | 0 < k <= |c.q| && k + c.at in c.ends
      ensures NotInside(Decodes(c, k), a, FirstSize(x)) && NotInside(Decodes(c, k), b, SecondSize(x))
    {
      TwinStops(x, c, pad, k);
    }
    BlockAligned(c, a, FirstSize(x));
    BlockAligned(c, b, SecondSize(x));
    FieldSizes(x);
    TwoBlocks(x, c, a, b);
  }

  lemma TwoBlocks(x: Twin, c: Cuts, a: nat, b: nat)
    requires Good(x) && Aligned(c, a, FirstSize(x)) && Aligned(c, b, SecondSize(x))
    requires a == |Head(x)| && b == a + FirstSize(x) + |Middle(x)|
    ensures PlanAligned(c, |PackSize(0)|, Plan(x))
  {
    var plan := Plan(x);
    assert plan[1..] == [plan[1]] && plan[1..][1..] == [];
    assert ExtraAt(plan[0], |PackSize(0)|) == a;
    var used := BlockEnd(plan[0], |PackSize(0)|);
    assert ExtraAt(plan[1], used) == b;
    BlockAligned(c, DiffAt(plan[0], |PackSize(0)|), 0);
    BlockAligned(c, DiffAt(plan[1], used), 0);
    assert PlanAligned(c, used, plan[1..]);
  }

  // -- what they write ------------------------------------------------------------------------

  /** The writes of a run over such a patch, in chunks of 512 bytes: the slices of its
      two blocks, up to the first that does not fit. */
  lemma TwinWrites(h: Host, x: Twin)
    requires Good(x) && SeekOk(h, 0) && h.room > 0
    ensures WriteList(h, ChunkedFeed(File(x))) == UpTo(h.room, PlanWrites(Plan(x)))
  {
    var pad := TwinCompressed(h, x);
    TwinDecoded(h, x, pad);
    TwinRun(h, x, ChunkedFeed(File(x)), pad);
  }

  /** A target that fits is written as it should be. */
  lemma TwinApplies(h: Host, x: Twin)
    requires Good(x) && SeekOk(h, 0) && TargetSize(x) < h.room
    ensures Apply(h, File(x)) == Outcome(TargetSize(x), FirstData(x) + SecondData(x))
  {
    var pad := TwinCompressed(h, x);
    RoundTrip.PatchRoundTrip(h, FirstData(x) + SecondData(x), Plan(x), 4, Data(x), Opening(x) + Rest(x), pad);
  }

  lemma TwinDecoded(h: Host, x: Twin, pad: seq<bool>)
    requires Good(x) && SeekOk(h, 0) && RoundTrip.ValidPlan(h, 0, Plan(x))
    requires RoundTrip.Compresses(Data(x), Opening(x) + Rest(x), pad)
    requires Expand(STATIC_CONFIG, [], Opening(x) + Rest(x)) == PackSize(0) + RoundTrip.Serialise(h, 0, Plan(x))
    ensures Decode(STATIC_CONFIG, Data(x)) == PackSize(0) + RoundTrip.Serialise(h, 0, Plan(x)) == Stream(x)
  {
    RoundTrip.StreamNonEmpty(Data(x), Opening(x) + Rest(x), pad);
    RoundTrip.DecodeCompressed(Data(x), Opening(x) + Rest(x), pad);
    TwinSerialised(h, x);
  }

  lemma TwinRun(h: Host, x: Twin, f: Feed, pad: seq<bool>)
    requires Good(x) && SeekOk(h, 0) && h.room > 0 && f == ChunkedFeed(File(x)) && RoundTrip.ValidPlan(h, 0, Plan(x))
    requires RoundTrip.Target(Plan(x)) == FirstData(x) + SecondData(x)
    requires RoundTrip.Compresses(Data(x), Opening(x) + Rest(x), pad)
    requires Decode(STATIC_CONFIG, Data(x)) == PackSize(0) + RoundTrip.Serialise(h, 0, Plan(x)) == Stream(x)
    ensures WriteList(h, f) == UpTo(h.room, PlanWrites(Plan(x)))
  {
    FieldSizes(x);
    var c := Cuts(Data(x), 2 + |PackSize(TargetSize(x))|, f.ends);
    EndsLate(f.whole, 157 + c.at);
    TwinAligned(h, x, c, pad);
    PlanCut(h, f, FirstData(x) + SecondData(x), Plan(x), 4, Data(x), c);
    AlignedPlan(c, |PackSize(0)|, Plan(x));
  }

  lemma EndsLate(patch: seq<byte>, at: nat)
    requires at <= CHUNK_SIZE
    ensures forall e :: e in ChunkedFeed(patch).ends ==> e >= at
  {
  }

  lemma TwinSlices(x: Twin)
    requires Good(x)
    ensures PlanWrites(Plan(x)) == SlicesOf(FirstData(x)) + SlicesOf(SecondData(x))
  {
    var plan, a, b := Plan(x), SlicesOf(FirstData(x)), SlicesOf(SecondData(x));
    assert plan[1..] == [plan[1]] && plan[1..][1..] == [];
    ExtraOnly(plan);
    ExtraOnly(plan[1..]);
  }

  lemma ExtraOnly(blocks: seq<RoundTrip.Block>)
    requires blocks != [] && blocks[0].diff == []
    ensures PlanWrites(blocks) == SlicesOf(blocks[0].extra) + PlanWrites(blocks[1..])
    ensures blocks[1..] == [] ==> PlanWrites(blocks) == SlicesOf(blocks[0].extra)
  {
    var ws := SlicesOf(blocks[0].extra);
    assert SlicesOf([]) + ws == ws;
    NothingMore(ws);
  }

  lemma TwinSizes(x: Twin)
    requires Good(x)
    ensures Sizes(PlanWrites(Plan(x))) == Full(x.m) + [127] + (Full(x.n) + [126])
  {
    TwinSlices(x);
    SizesOfSlices(FirstData(x), x.m, 127);
    SizesOfSlices(SecondData(x), x.n, 126);
    SizesConcat(SlicesOf(FirstData(x)), SlicesOf(SecondData(x)));
  }

  lemma {:induction false} SizesConcat(a: seq<seq<byte>>, b: seq<seq<byte>>)
    ensures Sizes(a + b) == Sizes(a) + Sizes(b)
  {
    if b == [] {
      assert a + b == a;
    } else {
      var init := b[..|b| - 1];
      SizesConcat(a, init);
      assert (a + b)[..|a + b| - 1] == a + init;
      Assoc(Sizes(a), Sizes(init), [|b[|b| - 1]|]);
    }
  }

  lemma OneSize(w: seq<byte>)
    ensures Sizes([w]) == [|w|] && Join([w]) == w && (w != [] ==> UpTo(1, [w]) == [w])
  {
    assert [w][..0] == [];
  }

  lemma {:induction false} SizesOfSlices(t: seq<byte>, k: nat, r: nat)
    requires |t| == SLICE * k + r && 1 <= r < SLICE
    ensures Sizes(SlicesOf(t)) == Full(k) + [r]
    decreases k
  {
    if k == 0 {
      OneSize(t);
    } else {
      var first, rest := t[..SLICE], t[SLICE..];
      SizesOfSlices(rest, k - 1, r);
      SizesConcat([first], SlicesOf(rest));
      OneSize(first);
      OneMoreFull(k, r);
    }
  }

  lemma OneMoreFull(k: nat, r: nat)
    requires k >= 1
    ensures [SLICE] + (Full(k - 1) + [r]) == Full(k) + [r]
  {
    FullFront(k - 1);
    Assoc([SLICE], Full(k - 1), [r]);
  }

  /** In a slot that has one byte left behind the first block, the run ends with the
      first 128 bytes of the second. */
  lemma TwinOverflow(x: Twin, room: nat)
    requires Good(x) && room == FirstSize(x) + 1
    ensures UpTo(room, PlanWrites(Plan(x))) == SlicesOf(FirstData(x)) + [Turned(x.v)]
  {
    var w, b, rest := Turned(x.v), SecondData(x), SecondData(x)[SLICE..];
    var a := SlicesOf(FirstData(x));
    TwinSlices(x);
    JoinSlices(FirstData(x));
    UpToConcat(room, a, SlicesOf(b));
    SecondBegins(x);
    UpToConcat(1, [w], SlicesOf(rest));
    OneSize(w);
  }

  lemma SecondBegins(x: Twin)
    requires Good(x)
    ensures SecondData(x)[..SLICE] == Turned(x.v)
  {
    var w := Turned(x.v);
    assert Repeated(w, x.n) == w + Repeated(w, x.n - 1);
    Assoc(w, Repeated(w, x.n - 1), w[..126]);
  }
}
