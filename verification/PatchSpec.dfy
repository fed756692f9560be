/** The one-pass meaning of a patch: what bytes it writes and which status it ends
    with. `ConsumeAll` interprets the decompressed stream byte by byte; `Apply`
    puts the outer header, the decompression and the final verdict around it. */
module PatchSpec {
  import opened Bytes
  import opened HeatshrinkSpec
  import opened Varint

  const NOT_IMPLEMENTED: int := -1
  const BAD_PATCH_TYPE: int := -3
  const CORRUPT_PATCH: int := -9
  const IO_FAILED: int := -10
  const ALREADY_DONE: int := -11
  const SHORT_HEADER: int := -18
  const NOT_ENOUGH_PATCH_DATA: int := -19
  const ALREADY_FAILED: int := -24
  const CORRUPT_PATCH_OVERFLOW: int := -25
  const HEATSHRINK_HEADER: int := -27

  /** size_t is 32 bits wide. */
  const SIZE_MOD: int := 0x1_0000_0000

  /** detools_apply_patch_state_t */
  datatype PatchState =
    | Init | DfpatchSize | DiffSize | DiffData | ExtraSize | ExtraData | Adjustment | Done | Failed

  /** The source image as the from callbacks see it: `mem` ends where reading and
      seeking start to fail, position 0 is at `base`. The target has room for
      fewer than `room` bytes. */
  datatype Host = Host(mem: seq<byte>, base: int, room: nat)

  predicate ReadOk(h: Host, pos: int, n: nat) {
    0 <= h.base + pos && h.base + pos + n < |h.mem|
  }

  predicate SeekOk(h: Host, pos: int) {
    h.base + pos < |h.mem|
  }

  predicate WriteOk(h: Host, written: nat, n: nat) {
    written + n < h.room
  }

  /** The patch state machine between two decompressed bytes. After a failed I/O
      callback the bytes written are unspecified, and `out` is empty. */
  datatype Machine =
    | Running(state: PatchState, size: SizeState, toSize: nat, toOffset: nat, chunkSize: nat,
              fromOffset: int, used: nat, out: seq<byte>)
    | Broken(error: int, written: seq<byte>)

  predicate IsData(s: PatchState) {
    s == DiffData || s == ExtraData
  }

  predicate IsSize(s: PatchState) {
    s == DfpatchSize || s == DiffSize || s == ExtraSize || s == Adjustment
  }

  /** A data state has data left: empty diff and extra blocks take no byte. */
  predicate Wf(m: Machine) {
    m.Running? ==>
      && (IsData(m.state) || IsSize(m.state) || m.state == Done)
      && (IsData(m.state) <==> m.chunkSize > 0)
      && WfSize(m.size)
  }

  predicate Over(m: Machine) {
    m.Broken? || m.state == Done
  }

  function Normal(m: Machine): (r: Machine)
    requires m.Running? && IsData(m.state) && WfSize(m.size)
    ensures Wf(r)
  {
    if m.chunkSize > 0 then m
    else m.(state := if m.state == DiffData then ExtraSize else Adjustment)
  }

  function BrokenIo(): Machine {
    Broken(IO_FAILED, [])
  }

  /** A size field is complete. The bound check is made modulo 2^32. */
  function Sized(h: Host, m: Machine, v: int): (r: Machine)
    requires m.Running? && IsSize(m.state) && m.chunkSize == 0 && WfSize(m.size)
    ensures Wf(r)
  {
    match m.state
    case DfpatchSize => if v > 0 then Broken(NOT_IMPLEMENTED, m.out) else m.(state := DiffSize)
    case Adjustment =>
      if !SeekOk(h, m.fromOffset + v) then BrokenIo()
      else m.(fromOffset := m.fromOffset + v, state := if m.toOffset == m.toSize then Done else DiffSize)
    case _ =>
      var n := v % SIZE_MOD;
      if (m.toOffset + n) % SIZE_MOD > m.toSize then Broken(CORRUPT_PATCH, m.out)
      else Normal(m.(state := if m.state == DiffSize then DiffData else ExtraData, chunkSize := n))
  }

  /** One target byte. */
  function Emit(h: Host, m: Machine, c: byte): (r: Machine)
    requires m.Running? && Wf(m) && IsData(m.state)
    ensures Wf(r)
  {
    if !WriteOk(h, |m.out|, 1) then BrokenIo()
    else Normal(m.(out := m.out + [c], toOffset := (m.toOffset + 1) % SIZE_MOD, chunkSize := m.chunkSize - 1))
  }

  function Patched(h: Host, pos: int, b: byte): byte
    requires ReadOk(h, pos, 1)
  {
    Plus(b, h.mem[h.base + pos])
  }

  /** uint8_t addition */
  function Plus(a: int, b: int): byte {
    (a + b) % 256
  }

  /** One byte of a size field. */
  function ConsumeSizeByte(h: Host, m: Machine, b: byte): (r: Machine)
    requires Wf(m) && m.Running? && IsSize(m.state)
    ensures Wf(r)
  {
    SizeByteBound(m.size, b);
    match SizeByte(m.size, b)
    case Partial(s) => m.(size := s, used := m.used + 1)
    case Overflow => Broken(CORRUPT_PATCH_OVERFLOW, m.out)
    case Complete(v) => Sized(h, m.(size := First, used := m.used + 1), v)
  }

  /** One byte of a diff or extra block. */
  function ConsumeDataByte(h: Host, m: Machine, b: byte): (r: Machine)
    requires Wf(m) && m.Running? && IsData(m.state)
    ensures Wf(r)
  {
    if m.state == ExtraData then Emit(h, m.(used := m.used + 1), b)
    else if !ReadOk(h, m.fromOffset, 1) then BrokenIo()
    else Emit(h, m.(used := m.used + 1, fromOffset := m.fromOffset + 1), Patched(h, m.fromOffset, b))
  }

  /** One decompressed byte. */
  function Consume(h: Host, m: Machine, b: byte): (r: Machine)
    requires Wf(m)
    ensures Wf(r)
  {
    if Over(m) then m
    else if IsData(m.state) then ConsumeDataByte(h, m, b)
    else ConsumeSizeByte(h, m, b)
  }

  function ConsumeAll(h: Host, m: Machine, bs: seq<byte>): (r: Machine)
    requires Wf(m)
    ensures Wf(r)
  {
    if bs == [] then m else Consume(h, ConsumeAll(h, m, bs[..|bs| - 1]), bs[|bs| - 1])
  }

  lemma ConsumeSnoc(h: Host, m: Machine, bs: seq<byte>, b: byte)
    requires Wf(m)
    ensures ConsumeAll(h, m, bs + [b]) == Consume(h, ConsumeAll(h, m, bs), b)
  {
    assert (bs + [b])[..|bs + [b]| - 1] == bs;
  }

  lemma {:induction false} ConsumeConcat(h: Host, m: Machine, a: seq<byte>, b: seq<byte>)
    requires Wf(m)
    ensures ConsumeAll(h, m, a + b) == ConsumeAll(h, ConsumeAll(h, m, a), b)
  {
    if b == [] {
      assert a + b == a;
    } else {
      ConsumeConcat(h, m, a, b[..|b| - 1]);
      LastOfConcat(a, b);
    }
  }

  lemma {:induction false} ConsumeOver(h: Host, m: Machine, bs: seq<byte>)
    requires Wf(m) && Over(m)
    ensures ConsumeAll(h, m, bs) == m
  {
    if bs != [] {
      ConsumeOver(h, m, bs[..|bs| - 1]);
    }
  }

  // -- outer header ---------------------------------------------------------------

  datatype HeaderResult = HeaderError(code: int) | HeaderOk(toSize: nat, length: nat)

  function HeaderTail(p: seq<byte>, i: nat, value: nat, offset: nat): HeaderResult
    decreases |p| - i
  {
    if i >= |p| then HeaderError(SHORT_HEADER)
    else if IsOverflow(offset) then HeaderError(CORRUPT_PATCH_OVERFLOW)
    else
      var value' := value + p[i] % 128 * Pow2(offset);
      if p[i] < 128 then HeaderOk(value', i + 1) else HeaderTail(p, i + 1, value', offset + 7)
  }

  /** Patch type and compression, then the unsigned size of the target. */
  function Header(p: seq<byte>): HeaderResult {
    if p == [] then HeaderError(SHORT_HEADER)
    else if p[0] / 16 % 8 != 0 then HeaderError(BAD_PATCH_TYPE)
    else if |p| == 1 then HeaderError(SHORT_HEADER)
    else if p[1] < 128 then HeaderOk(p[1] % 64, 2)
    else HeaderTail(p, 2, p[1] % 64, 6)
  }

  /** The first bytes decide the header: a chunk boundary inside it is an error. */
  predicate HeaderDecided(p: seq<byte>) {
    Header(p) != HeaderError(SHORT_HEADER)
  }

  lemma {:induction false} HeaderTailPrefix(a: seq<byte>, b: seq<byte>, i: nat, value: nat, offset: nat)
    requires HeaderTail(a, i, value, offset) != HeaderError(SHORT_HEADER)
    ensures HeaderTail(a + b, i, value, offset) == HeaderTail(a, i, value, offset)
    ensures HeaderTail(a, i, value, offset).HeaderOk? ==> i < HeaderTail(a, i, value, offset).length <= |a|
    decreases |a| - i
  {
    assert (a + b)[i] == a[i];
    if a[i] >= 128 && !IsOverflow(offset) {
      HeaderTailPrefix(a, b, i + 1, value + a[i] % 128 * Pow2(offset), offset + 7);
    }
  }

  lemma HeaderPrefix(a: seq<byte>, b: seq<byte>)
    requires HeaderDecided(a)
    ensures Header(a + b) == Header(a)
    ensures Header(a).HeaderOk? ==> 2 <= Header(a).length <= |a|
  {
    if |a| > 1 && a[0] / 16 % 8 == 0 && a[1] >= 128 {
      HeaderTailPrefix(a, b, 2, a[1] % 64, 6);
    }
    assert (a + b)[0] == a[0];
    if |a| > 1 {
      assert (a + b)[1] == a[1];
    }
  }

  lemma {:induction false} TailDecided(p: seq<byte>, i: nat, value: nat, offset: nat)
    requires offset in {6, 13, 20, 27} && i < |p| && 7 * (|p| - i) + offset > 27
    ensures HeaderTail(p, i, value, offset) != HeaderError(SHORT_HEADER)
    decreases |p| - i
  {
    if p[i] >= 128 && offset < 27 {
      TailDecided(p, i + 1, value + p[i] % 128 * Pow2(offset), offset + 7);
    }
  }

  /** Six bytes always decide it. */
  lemma SixDecide(p: seq<byte>)
    requires |p| >= 6
    ensures HeaderDecided(p)
  {
    TailDecided(p, 2, p[1] % 64, 6);
  }

  // -- the whole patch -------------------------------------------------------------

  /** The machine after the outer header. */
  function Started(toSize: nat): (m: Machine)
    ensures Wf(m)
  {
    Running(if toSize > 0 then DfpatchSize else Done, First, toSize, 0, 0, 0, 0, [])
  }

  predicate GoodWindow(b: byte) {
    b / 16 + 4 == STATIC_CONFIG.w && b % 16 + 3 == STATIC_CONFIG.l
  }

  /** The machine after the patch reader has taken `stream`: a byte with the window
      sizes, then compressed data. */
  function RunStream(h: Host, m: Machine, stream: seq<byte>): (r: Machine)
    requires Wf(m)
    ensures Wf(r)
  {
    if Over(m) || stream == [] then m
    else if !GoodWindow(stream[0]) then Broken(HEATSHRINK_HEADER, m.out)
    else ConsumeAll(h, m, Decode(STATIC_CONFIG, stream[1..]))
  }

  /** The stream decodes to at least n bytes. */
  predicate Enough(stream: seq<byte>, n: nat) {
    n == 0 || (stream != [] && |Decode(STATIC_CONFIG, stream[1..])| >= n)
  }

  datatype Outcome = Outcome(result: int, out: seq<byte>)

  /** The status once the whole stream has been offered. A stream that is done must
      not have bytes left over, neither compressed nor decompressed. */
  function Verdict(h: Host, m0: Machine, stream: seq<byte>): Outcome
    requires Wf(m0)
  {
    var m := RunStream(h, m0, stream);
    if m.Broken? then Outcome(m.error, m.written)
    else if m.state != Done then Outcome(NOT_ENOUGH_PATCH_DATA, m.out)
    else if stream != [] && Enough(stream[..|stream| - 1], m.used) then Outcome(ALREADY_DONE, m.out)
    else if Enough(stream, m.used + 1) then Outcome(CORRUPT_PATCH, m.out)
    else Outcome(m.toSize, m.out)
  }

  /** What a patch does to a source. */
  function Apply(h: Host, patch: seq<byte>): Outcome {
    match Header(patch)
    case HeaderError(code) => Outcome(code, [])
    case HeaderOk(toSize, n) =>
      if n > |patch| then Outcome(SHORT_HEADER, []) else Verdict(h, Started(toSize), patch[n..])
  }
}
