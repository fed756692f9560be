/** What the heatshrink decoder computes: a bit string and an unbounded output
    history in, a longer history out. `Dec` is the decoder's abstract state;
    `Settle` runs it with unlimited output room until it needs more bits. */
module HeatshrinkSpec {
  import opened Bytes

  /** window_sz2 and lookahead_sz2. */
  datatype Config = Config(w: nat, l: nat)

  predicate ValidConfig(c: Config) {
    4 <= c.w <= 15 && 3 <= c.l < c.w
  }

  /** The static configuration of this firmware. */
  const STATIC_CONFIG := Config(8, 7)

  datatype Phase =
    | TagBit
    | YieldLiteral
    | IndexMsb
    | IndexLsb(index: nat)
    | CountMsb(distance: nat)
    | CountLsb(distance: nat, count: nat)
    | YieldBackref(distance: nat, count: nat)

  datatype Dec = Dec(phase: Phase, bits: seq<bool>, hist: seq<byte>)

  predicate WfPhase(c: Config, p: Phase) {
    match p
    case TagBit => true
    case YieldLiteral => true
    case IndexMsb => c.w > 8
    case IndexLsb(i) => i % 256 == 0 && i + Pow2(if c.w < 8 then c.w else 8) <= Pow2(c.w)
    case CountMsb(d) => c.l > 8 && 1 <= d <= Pow2(c.w)
    case CountLsb(d, n) =>
      1 <= d <= Pow2(c.w) && n % 256 == 0 && n + Pow2(if c.l < 8 then c.l else 8) <= Pow2(c.l)
    case YieldBackref(d, n) => 1 <= d <= Pow2(c.w) && 1 <= n <= Pow2(c.l)
  }

  /** Bits the phase reads in one go. */
  function Need(c: Config, p: Phase): nat {
    match p
    case TagBit => 1
    case YieldLiteral => 8
    case IndexMsb => if c.w > 8 then c.w - 8 else 0
    case IndexLsb(_) => if c.w < 8 then c.w else 8
    case CountMsb(_) => if c.l > 8 then c.l - 8 else 0
    case CountLsb(_, _) => if c.l < 8 then c.l else 8
    case YieldBackref(_, _) => 0
  }

  /** The phase after reading v. */
  function Next(c: Config, p: Phase, v: nat): Phase
    requires !p.YieldBackref?
  {
    match p
    case TagBit => if v != 0 then YieldLiteral else if c.w > 8 then IndexMsb else IndexLsb(0)
    case YieldLiteral => TagBit
    case IndexMsb => IndexLsb(v * 256)
    case IndexLsb(i) => if c.l > 8 then CountMsb(i + v + 1) else CountLsb(i + v + 1, 0)
    case CountMsb(d) => CountLsb(d, v * 256)
    case CountLsb(d, n) => YieldBackref(d, n + v + 1)
  }

  lemma NextWf(c: Config, p: Phase, v: nat)
    requires ValidConfig(c) && WfPhase(c, p) && !p.YieldBackref? && v < Pow2(Need(c, p))
    ensures WfPhase(c, Next(c, p, v)) && 1 <= Need(c, p) <= 8
  {
    match p
    case TagBit => LowPart(c.w);
    case IndexMsb => HighPart(c.w, v);
    case CountMsb(_) => HighPart(c.l, v);
    case IndexLsb(_) => LowPart(c.l);
    case _ =>
  }

  lemma LowPart(n: nat)
    ensures Pow2(if n < 8 then n else 8) <= Pow2(n)
  {
    Pow2Mono(if n < 8 then n else 8, n);
  }

  /** A high part of n - 8 bits leaves room for the low byte. */
  lemma HighPart(n: nat, v: nat)
    requires n > 8 && v < Pow2(n - 8)
    ensures v * 256 % 256 == 0 && v * 256 + Pow2(8) <= Pow2(n)
  {
    Pow2Add(n - 8, 8);
    assert Pow2(8) == 256;
    assert (v + 1) * 256 <= Pow2(n - 8) * 256;
  }

  /** The byte `distance` back in the history; the window starts out zeroed. */
  function Back(hist: seq<byte>, distance: nat): byte
    requires 1 <= distance
  {
    if distance <= |hist| then hist[|hist| - distance] else 0
  }

  /** One step: read one field, or copy one byte of a back-reference. */
  function Advance(c: Config, d: Dec): (r: Option<Dec>)
    requires ValidConfig(c) && WfPhase(c, d.phase)
    ensures r.Some? ==> WfPhase(c, r.value.phase) && d.hist <= r.value.hist
    ensures r.Some? && !d.phase.YieldBackref? ==> |r.value.bits| < |d.bits|
  {
    if d.phase.YieldBackref? then
      Some(Dec(if d.phase.count == 1 then TagBit else YieldBackref(d.phase.distance, d.phase.count - 1),
               d.bits, d.hist + [Back(d.hist, d.phase.distance)]))
    else
      var n := Need(c, d.phase);
      if |d.bits| < n then None
      else
        var v := Value(d.bits[..n]);
        ValueBound(d.bits[..n]);
        NextWf(c, d.phase, v);
        Some(Dec(Next(c, d.phase, v), d.bits[n..],
                 if d.phase.YieldLiteral? then d.hist + [LiteralByte(d.bits)] else d.hist))
  }

  function LiteralByte(bits: seq<bool>): byte
    requires |bits| >= 8
  {
    ByteValue(bits[..8]);
    Value(bits[..8])
  }

  function Owed(p: Phase): nat {
    if p.YieldBackref? then p.count else 0
  }

  /** Run until a needed bit field is incomplete. */
  function Settle(c: Config, d: Dec): (r: Dec)
    requires ValidConfig(c) && WfPhase(c, d.phase)
    ensures WfPhase(c, r.phase) && Advance(c, r).None?
    ensures d.hist <= r.hist && |r.bits| <= |d.bits|
    decreases |d.bits|, Owed(d.phase)
  {
    match Advance(c, d)
    case None => d
    case Some(e) => Settle(c, e)
  }

  function Feed(d: Dec, more: seq<bool>): Dec {
    d.(bits := d.bits + more)
  }

  lemma AdvanceFeed(c: Config, d: Dec, more: seq<bool>)
    requires ValidConfig(c) && WfPhase(c, d.phase) && Advance(c, d).Some?
    ensures Advance(c, Feed(d, more)) == Some(Feed(Advance(c, d).value, more))
  {
    var n := Need(c, d.phase);
    if !d.phase.YieldBackref? {
      assert (d.bits + more)[..n] == d.bits[..n];
      assert (d.bits + more)[n..] == d.bits[n..] + more;
    }
  }

  /** Decoding in two goes is decoding in one. */
  lemma {:induction false} SettleFeed(c: Config, d: Dec, more: seq<bool>)
    requires ValidConfig(c) && WfPhase(c, d.phase)
    ensures Settle(c, Feed(Settle(c, d), more)) == Settle(c, Feed(d, more))
    decreases |d.bits|, Owed(d.phase)
  {
    match Advance(c, d)
    case None =>
    case Some(e) =>
      AdvanceFeed(c, d, more);
      SettleFeed(c, e, more);
  }

  function Start(bits: seq<bool>): Dec {
    Dec(TagBit, bits, [])
  }

  /** Everything the bytes decode to. */
  function Decode(c: Config, bs: seq<byte>): seq<byte>
    requires ValidConfig(c)
  {
    Settle(c, Start(Bits(bs))).hist
  }

  /** More compressed bytes never retract output. */
  lemma DecodeMonotone(c: Config, a: seq<byte>, b: seq<byte>)
    requires ValidConfig(c)
    ensures Decode(c, a) <= Decode(c, a + b)
  {
    BitsConcat(a, b);
    SettleFeed(c, Start(Bits(a)), Bits(b));
  }

  // -- the same decoding, token by token ---------------------------------------

  datatype Token = Literal(b: byte) | BackRef(distance: nat, length: nat)

  predicate WfToken(c: Config, t: Token) {
    t.BackRef? ==> 1 <= t.distance <= Pow2(c.w) && 1 <= t.length <= Pow2(c.l)
  }

  function TokenBits(c: Config, t: Token): (bits: seq<bool>)
    requires WfToken(c, t)
    ensures |bits| == if t.Literal? then 9 else 1 + c.w + c.l
  {
    match t
    case Literal(b) => [true] + Binary(b, 8)
    case BackRef(d, n) => [false] + Binary(d - 1, c.w) + Binary(n - 1, c.l)
  }

  function EncodeTokens(c: Config, ts: seq<Token>): seq<bool>
    requires forall t :: t in ts ==> WfToken(c, t)
  {
    if ts == [] then [] else TokenBits(c, ts[0]) + EncodeTokens(c, ts[1..])
  }

  function Copy(hist: seq<byte>, distance: nat, length: nat): (r: seq<byte>)
    requires 1 <= distance
    ensures |r| == |hist| + length && hist <= r
    decreases length
  {
    if length == 0 then hist else Copy(hist + [Back(hist, distance)], distance, length - 1)
  }

  lemma {:induction false} CopyAdd(hist: seq<byte>, distance: nat, a: nat, b: nat)
    requires 1 <= distance
    ensures Copy(Copy(hist, distance, a), distance, b) == Copy(hist, distance, a + b)
    decreases a
  {
    if a > 0 {
      CopyAdd(hist + [Back(hist, distance)], distance, a - 1, b);
    }
  }

  function ExpandToken(c: Config, hist: seq<byte>, t: Token): seq<byte>
    requires WfToken(c, t)
  {
    match t
    case Literal(b) => hist + [b]
    case BackRef(d, n) => Copy(hist, d, n)
  }

  /** What a token list stands for. */
  function Expand(c: Config, hist: seq<byte>, ts: seq<Token>): seq<byte>
    requires forall t :: t in ts ==> WfToken(c, t)
    decreases ts
  {
    if ts == [] then hist else Expand(c, ExpandToken(c, hist, ts[0]), ts[1..])
  }

  /** The first token of a bit string, when it is complete. */
  function FirstToken(c: Config, bits: seq<bool>): (r: Option<Token>)
    requires ValidConfig(c)
    ensures r.Some? ==> WfToken(c, r.value) && TokenBits(c, r.value) <= bits
  {
    if bits == [] then None
    else if bits[0] then
      if |bits| < 9 then None
      else
        ReadLiteral(c, bits);
        Some(Literal(LiteralByte(bits[1..])))
    else if |bits| < 1 + c.w + c.l then None
    else
      ReadBackRef(c, bits);
      Some(BackRefOf(bits[1..][..c.w], bits[1..][c.w..][..c.l]))
  }

  function BackRefOf(index: seq<bool>, count: seq<bool>): Token {
    BackRef(Value(index) + 1, Value(count) + 1)
  }

  lemma ReadLiteral(c: Config, bits: seq<bool>)
    requires |bits| >= 9 && bits[0]
    ensures TokenBits(c, Literal(LiteralByte(bits[1..]))) == bits[..9]
  {
    BinaryOfValue(bits[1..][..8]);
    assert bits[..9] == [true] + bits[1..][..8];
  }

  lemma ReadBackRef(c: Config, bits: seq<bool>)
    requires |bits| >= 1 + c.w + c.l && !bits[0]
    ensures WfToken(c, BackRefOf(bits[1..][..c.w], bits[1..][c.w..][..c.l]))
    ensures TokenBits(c, BackRefOf(bits[1..][..c.w], bits[1..][c.w..][..c.l]))
         == bits[..1 + c.w + c.l]
  {
    var index, count := bits[1..][..c.w], bits[1..][c.w..][..c.l];
    ValueBound(index);
    ValueBound(count);
    BinaryOfValue(index);
    BinaryOfValue(count);
    assert bits[..1 + c.w + c.l] == [false] + index + count;
  }

  function ParseTokens(c: Config, bits: seq<bool>): (ts: seq<Token>)
    requires ValidConfig(c)
    ensures forall t :: t in ts ==> WfToken(c, t)
    decreases |bits|
  {
    match FirstToken(c, bits)
    case None => []
    case Some(t) => [t] + ParseTokens(c, bits[|TokenBits(c, t)|..])
  }

  lemma {:induction false} SettleCopy(c: Config, distance: nat, count: nat, bits: seq<bool>,
                                      hist: seq<byte>, full: seq<byte>)
    requires ValidConfig(c) && WfPhase(c, YieldBackref(distance, count))
    requires full == Copy(hist, distance, count)
    ensures Settle(c, Dec(YieldBackref(distance, count), bits, hist)) == Settle(c, Dec(TagBit, bits, full))
    decreases count
  {
    var next := hist + [Back(hist, distance)];
    if count > 1 {
      SettleCopy(c, distance, count - 1, bits, next, full);
    } else {
      assert Copy(next, distance, 0) == next;
    }
  }

  /** Reading a complete field moves the machine one phase on. */
  lemma SettleField(c: Config, p: Phase, field: seq<bool>, v: nat, tail: seq<bool>, hist: seq<byte>)
    requires ValidConfig(c) && WfPhase(c, p) && !p.YieldBackref? && !p.YieldLiteral?
    requires |field| == Need(c, p) && v == Value(field)
    ensures WfPhase(c, Next(c, p, v))
    ensures Settle(c, Dec(p, field + tail, hist)) == Settle(c, Dec(Next(c, p, v), tail, hist))
  {
    ValueBound(field);
    NextWf(c, p, v);
    assert (field + tail)[..|field|] == field;
    assert (field + tail)[|field|..] == tail;
  }

  /** A wide field is its top bits and then its low 8 bits. */
  lemma SplitField(field: seq<bool>, n: nat)
    requires n + 8 == |field|
    ensures field == field[..n] + field[n..] && Value(field) == Value(field[..n]) * 256 + Value(field[n..])
  {
    ValueConcat(field[..n], field[n..]);
    assert Pow2(8) == 256;
  }

  lemma StartPhasesWf(c: Config)
    requires ValidConfig(c)
    ensures WfPhase(c, IndexPhase(c))
  {
    NextWf(c, TagBit, 0);
  }

  /** From the index field on, the machine reads the distance ... */
  lemma SettleIndex(c: Config, index: seq<bool>, distance: nat, tail: seq<bool>, hist: seq<byte>)
    requires ValidConfig(c) && |index| == c.w && WfPhase(c, IndexPhase(c)) && distance == Value(index) + 1
    ensures WfPhase(c, CountPhase(c, distance))
    ensures Settle(c, Dec(IndexPhase(c), index + tail, hist)) == Settle(c, Dec(CountPhase(c, distance), tail, hist))
  {
    if c.w > 8 {
      var top, low := index[..c.w - 8], index[c.w - 8..];
      SplitField(index, c.w - 8);
      var half := IndexLsb(Value(top) * 256);
      assert Next(c, half, Value(low)) == CountPhase(c, distance);
      assert index + tail == top + (low + tail);
      SettleField(c, IndexMsb, top, Value(top), low + tail, hist);
      SettleField(c, half, low, Value(low), tail, hist);
    } else {
      assert Next(c, IndexLsb(0), Value(index)) == CountPhase(c, distance);
      SettleField(c, IndexLsb(0), index, Value(index), tail, hist);
    }
  }

  /** ... and then the count. */
  lemma SettleCount(c: Config, distance: nat, count: seq<bool>, length: nat, tail: seq<bool>, hist: seq<byte>)
    requires ValidConfig(c) && |count| == c.l && WfPhase(c, CountPhase(c, distance)) && length == Value(count) + 1
    ensures WfPhase(c, YieldBackref(distance, length))
    ensures Settle(c, Dec(CountPhase(c, distance), count + tail, hist))
         == Settle(c, Dec(YieldBackref(distance, length), tail, hist))
  {
    if c.l > 8 {
      SettleWideCount(c, distance, count, length, tail, hist);
    } else {
      SettleField(c, CountLsb(distance, 0), count, Value(count), tail, hist);
    }
  }

  lemma SettleWideCount(c: Config, distance: nat, count: seq<bool>, length: nat, tail: seq<bool>, hist: seq<byte>)
    requires ValidConfig(c) && c.l > 8 && |count| == c.l && WfPhase(c, CountMsb(distance)) && length == Value(count) + 1
    ensures WfPhase(c, YieldBackref(distance, length))
    ensures Settle(c, Dec(CountMsb(distance), count + tail, hist))
         == Settle(c, Dec(YieldBackref(distance, length), tail, hist))
  {
    var top, low := count[..c.l - 8], count[c.l - 8..];
    SplitField(count, c.l - 8);
    var half := CountLsb(distance, Value(top) * 256);
    assert Next(c, half, Value(low)) == YieldBackref(distance, length);
    Assoc(top, low, tail);
    SettleField(c, CountMsb(distance), top, Value(top), low + tail, hist);
    SettleField(c, half, low, Value(low), tail, hist);
  }

  function IndexPhase(c: Config): Phase {
    if c.w > 8 then IndexMsb else IndexLsb(0)
  }

  function CountPhase(c: Config, distance: nat): Phase {
    if c.l > 8 then CountMsb(distance) else CountLsb(distance, 0)
  }

  /** Without a complete token, the machine yields nothing. */
  lemma SettleIncomplete(c: Config, bits: seq<bool>, hist: seq<byte>)
    requires ValidConfig(c) && FirstToken(c, bits).None?
    ensures Settle(c, Dec(TagBit, bits, hist)).hist == hist
  {
    if bits != [] && !bits[0] {
      var rest := bits[1..];
      StartPhasesWf(c);
      assert bits == [false] + rest;
      SettleTag(c, rest, hist);
      SettleShortBackRef(c, rest, hist);
    }
  }

  lemma SettleShortBackRef(c: Config, bits: seq<bool>, hist: seq<byte>)
    requires ValidConfig(c) && |bits| < c.w + c.l && WfPhase(c, IndexPhase(c))
    ensures Settle(c, Dec(IndexPhase(c), bits, hist)).hist == hist
  {
    if |bits| >= c.w {
      var index, tail := bits[..c.w], bits[c.w..];
      assert bits == index + tail;
      var distance := Value(index) + 1;
      SettleIndex(c, index, distance, tail, hist);
      SettleShort(c, CountPhase(c, distance), tail, hist);
    } else {
      SettleShort(c, IndexPhase(c), bits, hist);
    }
  }

  lemma SettleTag(c: Config, tail: seq<bool>, hist: seq<byte>)
    requires ValidConfig(c) && WfPhase(c, IndexPhase(c))
    ensures Settle(c, Dec(TagBit, [false] + tail, hist)) == Settle(c, Dec(IndexPhase(c), tail, hist))
  {
    SettleField(c, TagBit, [false], 0, tail, hist);
  }

  /** An incomplete index or count field yields nothing. */
  lemma SettleShort(c: Config, p: Phase, bits: seq<bool>, hist: seq<byte>)
    requires ValidConfig(c) && WfPhase(c, p)
    requires (p == IndexPhase(c) && |bits| < c.w) || (exists d :: p == CountPhase(c, d) && |bits| < c.l)
    ensures Settle(c, Dec(p, bits, hist)).hist == hist
  {
    var n := Need(c, p);
    if |bits| >= n {
      assert bits == bits[..n] + bits[n..];
      SettleField(c, p, bits[..n], Value(bits[..n]), bits[n..], hist);
    }
  }

  /** A complete token is expanded, whatever follows it. */
  lemma SettleToken(c: Config, bits: seq<bool>, hist: seq<byte>, t: Token, rest: seq<bool>, after: seq<byte>)
    requires ValidConfig(c) && FirstToken(c, bits) == Some(t) && after == ExpandToken(c, hist, t)
    requires var n := if t.Literal? then 9 else 1 + c.w + c.l; n <= |bits| && rest == bits[n..]
    ensures Settle(c, Dec(TagBit, bits, hist)) == Settle(c, Dec(TagBit, rest, after))
  {
    if bits[0] {
      assert t == Literal(LiteralByte(bits[1..]));
      SettleLiteral(c, bits, hist);
    } else {
      var index, count := bits[1..][..c.w], bits[1..][c.w..][..c.l];
      CutFields(bits, c.w, c.l);
      assert t == BackRefOf(index, count);
      SettleBackRef(c, index, count, t, rest, hist);
    }
  }

  lemma CutFields(bits: seq<bool>, w: nat, l: nat)
    requires |bits| >= 1 + w + l && !bits[0]
    ensures bits == [false] + (bits[1..][..w] + (bits[1..][w..][..l] + bits[1 + w + l..]))
  {
  }

  lemma SettleLiteral(c: Config, bits: seq<bool>, hist: seq<byte>)
    requires ValidConfig(c) && |bits| >= 9 && bits[0]
    ensures Settle(c, Dec(TagBit, bits, hist))
         == Settle(c, Dec(TagBit, bits[9..], hist + [LiteralByte(bits[1..])]))
  {
    assert Value(bits[..1]) == 1;
    assert Advance(c, Dec(TagBit, bits, hist)) == Some(Dec(YieldLiteral, bits[1..], hist));
    assert bits[1..][8..] == bits[9..];
  }

  lemma SettleBackRef(c: Config, index: seq<bool>, count: seq<bool>, t: Token, tail: seq<bool>, hist: seq<byte>)
    requires ValidConfig(c) && |index| == c.w && |count| == c.l && t == BackRefOf(index, count)
    ensures WfToken(c, t)
    ensures Settle(c, Dec(TagBit, [false] + (index + (count + tail)), hist))
         == Settle(c, Dec(TagBit, tail, ExpandToken(c, hist, t)))
  {
    StartPhasesWf(c);
    SettleTag(c, index + (count + tail), hist);
    SettleIndex(c, index, t.distance, count + tail, hist);
    SettleCount(c, t.distance, count, t.length, tail, hist);
    SettleCopy(c, t.distance, t.length, tail, hist, ExpandToken(c, hist, t));
  }

  /** The bit-level machine decodes exactly the token list in its input. */
  lemma {:induction false} SettleIsExpand(c: Config, bits: seq<bool>, hist: seq<byte>)
    requires ValidConfig(c)
    ensures Settle(c, Dec(TagBit, bits, hist)).hist == Expand(c, hist, ParseTokens(c, bits))
    decreases |bits|
  {
    match FirstToken(c, bits)
    case None =>
      SettleIncomplete(c, bits, hist);
    case Some(t) =>
      var rest, after := bits[|TokenBits(c, t)|..], ExpandToken(c, hist, t);
      SettleToken(c, bits, hist, t, rest, after);
      SettleIsExpand(c, rest, after);
  }

  /** Parsing undoes encoding; up to 7 padding bits of any value are ignored. */
  lemma {:induction false} ParseEncode(c: Config, ts: seq<Token>, pad: seq<bool>)
    requires ValidConfig(c) && |pad| < 8
    requires forall t :: t in ts ==> WfToken(c, t)
    ensures ParseTokens(c, EncodeTokens(c, ts) + pad) == ts
  {
    var bits := EncodeTokens(c, ts) + pad;
    if ts == [] {
      assert bits == pad;
    } else {
      var tail := EncodeTokens(c, ts[1..]) + pad;
      assert bits == TokenBits(c, ts[0]) + tail;
      FirstOfEncode(c, ts[0], tail);
      assert bits[|TokenBits(c, ts[0])|..] == tail;
      ParseEncode(c, ts[1..], pad);
    }
  }

  lemma FirstOfEncode(c: Config, t: Token, tail: seq<bool>)
    requires ValidConfig(c) && WfToken(c, t)
    ensures FirstToken(c, TokenBits(c, t) + tail) == Some(t)
  {
    match t
    case Literal(b) => FirstOfLiteral(c, b, tail);
    case BackRef(d, n) => FirstOfBackRef(c, t, tail);
  }

  lemma FirstOfLiteral(c: Config, b: byte, tail: seq<bool>)
    requires ValidConfig(c)
    ensures FirstToken(c, [true] + Binary(b, 8) + tail) == Some(Literal(b))
  {
    var bits := [true] + Binary(b, 8) + tail;
    assert Pow2(8) == 256;
    ValueOfBinary(b, 8);
    assert bits[1..][..8] == Binary(b, 8);
    assert LiteralByte(bits[1..]) == b;
  }

  lemma FirstOfBackRef(c: Config, t: Token, tail: seq<bool>)
    requires ValidConfig(c) && WfToken(c, t) && t.BackRef?
    ensures FirstToken(c, TokenBits(c, t) + tail) == Some(t)
  {
    var index, count := Binary(t.distance - 1, c.w), Binary(t.length - 1, c.l);
    ValueOfBinary(t.distance - 1, c.w);
    ValueOfBinary(t.length - 1, c.l);
    FirstOfFields(c, t, index, count, tail, TokenBits(c, t) + tail);
  }

  lemma FirstOfFields(c: Config, t: Token, index: seq<bool>, count: seq<bool>, tail: seq<bool>, bits: seq<bool>)
    requires ValidConfig(c) && |index| == c.w && |count| == c.l && t == BackRefOf(index, count)
    requires bits == [false] + index + count + tail
    ensures FirstToken(c, bits) == Some(t)
  {
    Fields([false], index, count, tail);
    FirstIsBackRef(c, bits, index, count, t);
  }

  lemma FirstIsBackRef(c: Config, bits: seq<bool>, index: seq<bool>, count: seq<bool>, t: Token)
    requires ValidConfig(c) && |bits| >= 1 + c.w + c.l && !bits[0]
    requires bits[1..][..c.w] == index && bits[1..][c.w..][..c.l] == count && t == BackRefOf(index, count)
    ensures FirstToken(c, bits) == Some(t)
  {
  }

  lemma Fields(tag: seq<bool>, x: seq<bool>, y: seq<bool>, tail: seq<bool>)
    requires |tag| == 1
    ensures var bits := tag + x + y + tail;
            bits[0] == tag[0] && bits[1..][..|x|] == x && bits[1..][|x|..][..|y|] == y
    ensures tag + x + tail == tag + x + [] + tail
  {
    var bits := tag + x + y + tail;
    assert bits[1..] == x + y + tail;
    assert bits[1..][|x|..] == y + tail;
    assert tag + x == tag + x + [];
  }

  // -- how much can come out ---------------------------------------------------

  /** Output bytes still possible, at 8 per bit, from a token half read. */
  function Credit(p: Phase): nat {
    match p
    case TagBit => 0
    case YieldLiteral => 8
    case IndexMsb => 8
    case IndexLsb(_) => 8
    case CountMsb(_) => 72
    case CountLsb(_, _) => 72
    case YieldBackref(_, n) => n
  }

  lemma {:induction false} SettleExpansion(d: Dec)
    requires WfPhase(STATIC_CONFIG, d.phase)
    ensures |Settle(STATIC_CONFIG, d).hist| <= |d.hist| + 8 * |d.bits| + Credit(d.phase)
    decreases |d.bits|, Owed(d.phase)
  {
    match Advance(STATIC_CONFIG, d)
    case None =>
    case Some(e) =>
      assert Pow2(7) == 128;
      SettleExpansion(e);
  }

  /** A compressed byte never yields more than 64 bytes on average. */
  lemma ExpansionBound(bs: seq<byte>)
    ensures |Decode(STATIC_CONFIG, bs)| <= 64 * |bs|
  {
    SettleExpansion(Start(Bits(bs)));
  }
}
