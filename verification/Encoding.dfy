/** Compressing with heatshrink: token lists packed into bytes, and what the parts of
    the compressed data decode to. */
module Encoding {
  import opened Bytes
  import opened HeatshrinkSpec
  import opened FlashSpec

  // -- compressing --------------------------------------------------------------------

  function ByteOf(bits: seq<bool>): byte
    requires |bits| == 8
  {
    ByteValue(bits);
    Value(bits)
  }

  /** Bits as bytes, the last one filled up with zeros. */
  function Packed(bits: seq<bool>): (q: seq<byte>)
    decreases |bits|
  {
    if bits == [] then []
    else if |bits| < 8 then [ByteOf(bits + Zeros(8 - |bits|))]
    else [ByteOf(bits[..8])] + Packed(bits[8..])
  }

  function Zeros(n: nat): (z: seq<bool>)
    ensures |z| == n
  {
    if n == 0 then [] else [false] + Zeros(n - 1)
  }

  lemma {:induction false} PackedBits(bits: seq<bool>) returns (pad: seq<bool>)
    ensures |pad| < 8 && Bits(Packed(bits)) == bits + pad
    decreases |bits|
  {
    if bits == [] {
      pad := [];
    } else if |bits| < 8 {
      pad := Zeros(8 - |bits|);
      OneByte(bits + pad, []);
      NothingMore(bits + pad);
    } else {
      pad := PackedBits(bits[8..]);
      OneByte(bits[..8], Packed(bits[8..]));
      Assoc(bits[..8], bits[8..], pad);
    }
  }

  lemma OneByte(bits: seq<bool>, rest: seq<byte>)
    requires |bits| == 8
    ensures Bits([ByteOf(bits)] + rest) == bits + Bits(rest)
  {
    BinaryOfValue(bits);
    assert ([ByteOf(bits)] + rest)[1..] == rest;
  }

  predicate AllWf(ts: seq<Token>) {
    forall t :: t in ts ==> WfToken(STATIC_CONFIG, t)
  }

  lemma WfRef(d: nat, n: nat)
    requires 1 <= d <= 256 && 1 <= n <= 128
    ensures AllWf([BackRef(d, n)])
  {
    assert Pow2(8) == 256 && Pow2(7) == 128;
  }

  lemma {:induction false} ExpandConcat(hist: seq<byte>, a: seq<Token>, b: seq<Token>)
    requires AllWf(a) && AllWf(b)
    ensures AllWf(a + b)
    ensures Expand(STATIC_CONFIG, hist, a + b) == Expand(STATIC_CONFIG, Expand(STATIC_CONFIG, hist, a), b)
    decreases a
  {
    if a == [] {
      assert a + b == b;
    } else {
      ExpandConcat(ExpandToken(STATIC_CONFIG, hist, a[0]), a[1..], b);
      assert (a + b)[1..] == a[1..] + b;
    }
  }

  lemma ConsConcat<T>(a: seq<T>, b: seq<T>)
    requires a != []
    ensures a + b == [a[0]] + (a[1..] + b)
  {
  }

  lemma EncodeCons(t: Token, ts: seq<Token>)
    requires WfToken(STATIC_CONFIG, t) && AllWf(ts)
    ensures AllWf([t] + ts)
    ensures EncodeTokens(STATIC_CONFIG, [t] + ts) == TokenBits(STATIC_CONFIG, t) + EncodeTokens(STATIC_CONFIG, ts)
  {
    assert ([t] + ts)[1..] == ts;
  }

  lemma {:induction false} EncodeConcat(a: seq<Token>, b: seq<Token>)
    requires AllWf(a) && AllWf(b)
    ensures EncodeTokens(STATIC_CONFIG, a + b) == EncodeTokens(STATIC_CONFIG, a) + EncodeTokens(STATIC_CONFIG, b)
    decreases a
  {
    if a == [] {
      assert a + b == b;
    } else {
      var t, rest := a[0], a[1..];
      EncodeConcat(rest, b);
      EncodeCons(t, rest + b);
      ConsConcat(a, b);
      Assoc(TokenBits(STATIC_CONFIG, t), EncodeTokens(STATIC_CONFIG, rest), EncodeTokens(STATIC_CONFIG, b));
    }
  }

  /** Bytes as they are. */
  function Literals(bs: seq<byte>): (ts: seq<Token>)
    ensures AllWf(ts)
  {
    if bs == [] then [] else [Literal(bs[0])] + Literals(bs[1..])
  }

  lemma {:induction false} ExpandLiterals(hist: seq<byte>, bs: seq<byte>)
    ensures Expand(STATIC_CONFIG, hist, Literals(bs)) == hist + bs
    ensures |EncodeTokens(STATIC_CONFIG, Literals(bs))| == 9 * |bs|
    decreases |bs|
  {
    if bs != [] {
      ExpandLiterals(hist + [bs[0]], bs[1..]);
      assert Literals(bs)[1..] == Literals(bs[1..]);
      assert bs == [bs[0]] + bs[1..];
    }
  }

  /** A copy that does not overlap itself. */
  lemma {:induction false} PlainCopy(hist: seq<byte>, distance: nat, length: nat)
    requires 1 <= distance && length <= distance <= |hist|
    ensures Copy(hist, distance, length) == hist + hist[|hist| - distance..|hist| - distance + length]
    decreases length
  {
    if length > 0 {
      var b, at := Back(hist, distance), |hist| - distance;
      var next := hist + [b];
      PlainCopy(next, distance, length - 1);
      HeadTail(hist[at..at + length], b, next[at + 1..at + length]);
      Assoc(hist, [b], next[at + 1..at + length]);
    }
  }

  /** Repeats a part of what went before: `v` stands `distance` back. */
  lemma ExpandRef(x: seq<byte>, v: seq<byte>, y: seq<byte>, distance: nat)
    requires distance == |v + y| <= 256 && 1 <= |v| <= SLICE
    ensures AllWf([BackRef(distance, |v|)])
    ensures Expand(STATIC_CONFIG, x + v + y, [BackRef(distance, |v|)]) == x + v + y + v
    ensures |EncodeTokens(STATIC_CONFIG, [BackRef(distance, |v|)])| == 16
  {
    WfRef(distance, |v|);
    var hist := x + v + y;
    PlainCopy(hist, distance, |v|);
    assert hist[|hist| - distance..|hist| - distance + |v|] == v;
    var ts := [BackRef(distance, |v|)];
    assert ts[1..] == [];
  }

  /** The last 128 bytes again. */
  const AGAIN: Token := BackRef(SLICE, SLICE)

  function Copies(k: nat): (ts: seq<Token>)
    ensures AllWf(ts)
  {
    WfRef(SLICE, SLICE);
    if k == 0 then [] else [AGAIN] + Copies(k - 1)
  }

  function Repeated(v: seq<byte>, k: nat): (r: seq<byte>)
    ensures |r| == k * |v|
  {
    if k == 0 then [] else v + Repeated(v, k - 1)
  }

  lemma {:induction false} ExpandCopies(x: seq<byte>, v: seq<byte>, k: nat, hist: seq<byte>, full: seq<byte>)
    requires |v| == SLICE && hist == x + v && full == hist + Repeated(v, k)
    ensures Expand(STATIC_CONFIG, hist, Copies(k)) == full
    decreases k
  {
    if k == 0 {
      assert hist + [] == hist;
    } else {
      var next := hist + v;
      Assoc(hist, v, Repeated(v, k - 1));
      ExpandCopies(hist, v, k - 1, next, full);
      OneCopy(x, v, hist);
      ExpandCons(hist, AGAIN, Copies(k - 1));
    }
  }

  lemma ExpandCons(hist: seq<byte>, t: Token, ts: seq<Token>)
    requires WfToken(STATIC_CONFIG, t) && AllWf(ts)
    ensures AllWf([t] + ts)
    ensures Expand(STATIC_CONFIG, hist, [t] + ts) == Expand(STATIC_CONFIG, ExpandToken(STATIC_CONFIG, hist, t), ts)
  {
    assert ([t] + ts)[1..] == ts;
  }

  lemma OneCopy(x: seq<byte>, v: seq<byte>, hist: seq<byte>)
    requires |v| == SLICE && hist == x + v
    ensures WfToken(STATIC_CONFIG, AGAIN) && ExpandToken(STATIC_CONFIG, hist, AGAIN) == hist + v
  {
    WfRef(SLICE, SLICE);
    assert AGAIN in [AGAIN];
    PlainCopy(hist, SLICE, SLICE);
    assert hist[|hist| - SLICE..|hist| - SLICE + SLICE] == v;
  }

  lemma {:induction false} EncodeCopies(k: nat)
    ensures |EncodeTokens(STATIC_CONFIG, Copies(k))| == 16 * k
  {
    if k > 0 {
      EncodeCopies(k - 1);
      WfRef(SLICE, SLICE);
      assert AGAIN in [AGAIN];
      EncodeCons(AGAIN, Copies(k - 1));
    }
  }

  lemma {:induction false} RepeatedEnd(v: seq<byte>, k: nat) returns (y: seq<byte>)
    ensures v + Repeated(v, k) == Repeated(v, k + 1) == y + v
  {
    if k == 0 {
      y := [];
      assert v + [] == v && [] + v == v;
    } else {
      y := RepeatedEnd(v, k - 1);
      y := v + y;
    }
  }

  // -- where a prefix of the compressed data decodes to ------------------------------------

  function TokenLength(t: Token): nat {
    if t.Literal? then 1 else t.length
  }

  function Spans(ts: seq<Token>): nat {
    if ts == [] then 0 else TokenLength(ts[0]) + Spans(ts[1..])
  }

  lemma {:induction false} SpansConcat(a: seq<Token>, b: seq<Token>)
    ensures Spans(a + b) == Spans(a) + Spans(b)
    decreases a
  {
    if a == [] {
      assert a + b == b;
    } else {
      SpansConcat(a[1..], b);
      assert (a + b)[1..] == a[1..] + b;
    }
  }

  lemma {:induction false} ExpandSpans(hist: seq<byte>, ts: seq<Token>)
    requires AllWf(ts)
    ensures |Expand(STATIC_CONFIG, hist, ts)| == |hist| + Spans(ts)
    decreases ts
  {
    if ts != [] {
      ExpandSpans(ExpandToken(STATIC_CONFIG, hist, ts[0]), ts[1..]);
    }
  }

  /** A prefix of an encoding holds the first tokens of the list. */
  lemma {:induction false} ParsePrefix(ts: seq<Token>, pad: seq<bool>, bits: seq<bool>)
    requires AllWf(ts) && |pad| < 8 && bits <= EncodeTokens(STATIC_CONFIG, ts) + pad
    ensures ParseTokens(STATIC_CONFIG, bits) <= ts
    decreases ts
  {
    if ts == [] {
      assert FirstToken(STATIC_CONFIG, bits).None?;
    } else {
      var first, tail := TokenBits(STATIC_CONFIG, ts[0]), EncodeTokens(STATIC_CONFIG, ts[1..]) + pad;
      Assoc(first, EncodeTokens(STATIC_CONFIG, ts[1..]), pad);
      if |bits| < |first| {
        assert bits != [] ==> bits[0] == first[0];
        assert FirstToken(STATIC_CONFIG, bits).None?;
      } else {
        var rest := bits[|first|..];
        assert bits == first + rest && rest <= tail;
        FirstOfEncode(STATIC_CONFIG, ts[0], rest);
        ParsePrefix(ts[1..], pad, rest);
      }
    }
  }

  lemma ParseCons(t: Token, rest: seq<bool>)
    requires WfToken(STATIC_CONFIG, t)
    ensures ParseTokens(STATIC_CONFIG, TokenBits(STATIC_CONFIG, t) + rest) == [t] + ParseTokens(STATIC_CONFIG, rest)
  {
    var first := TokenBits(STATIC_CONFIG, t);
    FirstOfEncode(STATIC_CONFIG, t, rest);
    assert (first + rest)[|first|..] == rest;
  }

  lemma {:induction false} ParseConcat(a: seq<Token>, rest: seq<bool>)
    requires AllWf(a)
    ensures ParseTokens(STATIC_CONFIG, EncodeTokens(STATIC_CONFIG, a) + rest) == a + ParseTokens(STATIC_CONFIG, rest)
    decreases a
  {
    var tail := ParseTokens(STATIC_CONFIG, rest);
    if a == [] {
      assert EncodeTokens(STATIC_CONFIG, a) + rest == rest && a + tail == tail;
    } else {
      var t, more := a[0], a[1..];
      ParseConcat(more, rest);
      Assoc(TokenBits(STATIC_CONFIG, t), EncodeTokens(STATIC_CONFIG, more), rest);
      ParseCons(t, EncodeTokens(STATIC_CONFIG, more) + rest);
      ConsConcat(a, tail);
    }
  }

  /** Compressed bytes that hold the tokens `a` decode to them and to what can be parsed
      of the rest. */
  lemma DecodeParts(q: seq<byte>, a: seq<Token>, b: seq<Token>, pad: seq<bool>, k: nat) returns (rest: seq<bool>)
    requires AllWf(a) && AllWf(b) && k <= |q| && |EncodeTokens(STATIC_CONFIG, a)| <= 8 * k
    requires Bits(q) == EncodeTokens(STATIC_CONFIG, a) + (EncodeTokens(STATIC_CONFIG, b) + pad)
    ensures rest <= EncodeTokens(STATIC_CONFIG, b) + pad && |EncodeTokens(STATIC_CONFIG, a)| + |rest| == 8 * k
    ensures |Decode(STATIC_CONFIG, q[..k])| == Spans(a) + Spans(ParseTokens(STATIC_CONFIG, rest))
  {
    var bits, x := Bits(q[..k]), EncodeTokens(STATIC_CONFIG, a);
    assert q == q[..k] + q[k..];
    BitsConcat(q[..k], q[k..]);
    rest := bits[|x|..];
    SplitPrefix(bits, Bits(q[k..]), x, EncodeTokens(STATIC_CONFIG, b) + pad);
    var p := ParseTokens(STATIC_CONFIG, rest);
    ParseConcat(a, rest);
    SettleIsExpand(STATIC_CONFIG, bits, []);
    ExpandSpans([], a + p);
    SpansConcat(a, p);
  }

  /** ... which are some of the tokens that follow. */
  lemma DecodePrefix(q: seq<byte>, a: seq<Token>, b: seq<Token>, pad: seq<bool>, k: nat) returns (p: seq<Token>)
    requires AllWf(a) && AllWf(b) && |pad| < 8 && k <= |q| && |EncodeTokens(STATIC_CONFIG, a)| <= 8 * k
    requires Bits(q) == EncodeTokens(STATIC_CONFIG, a) + (EncodeTokens(STATIC_CONFIG, b) + pad)
    ensures p <= b && |Decode(STATIC_CONFIG, q[..k])| == Spans(a) + Spans(p)
  {
    var rest := DecodeParts(q, a, b, pad, k);
    p := ParseTokens(STATIC_CONFIG, rest);
    ParsePrefix(b, pad, rest);
  }

  lemma SplitPrefix<T>(a: seq<T>, x: seq<T>, b: seq<T>, y: seq<T>)
    requires a + x == b + y && |a| >= |b|
    ensures a == b + a[|b|..] && a[|b|..] <= y
  {
    assert a == (a + x)[..|a|] && b == (b + y)[..|b|];
    assert y == (b + y)[|b|..] == (a + x)[|b|..] == a[|b|..] + x;
  }

  // -- slices ---------------------------------------------------------------------------

  /** In a block of n bytes that begins at `from`, e is not inside a slice. */
  predicate NotInside(e: nat, from: nat, n: nat) {
    e <= from || e >= from + n || (e - from) % SLICE == 0
  }

  /** Decoding the tokens behind `at` bytes stops nowhere inside a slice. */
  predicate Steps(at: nat, ts: seq<Token>, from: nat, n: nat)
    decreases ts
  {
    NotInside(at, from, n) && (ts != [] ==> Steps(at + TokenLength(ts[0]), ts[1..], from, n))
  }

  lemma {:induction false} StepsConcat(at: nat, a: seq<Token>, b: seq<Token>, from: nat, n: nat)
    requires Steps(at, a, from, n) && Steps(at + Spans(a), b, from, n)
    ensures Steps(at, a + b, from, n)
    decreases a
  {
    if a == [] {
      assert a + b == b;
    } else {
      StepsConcat(at + TokenLength(a[0]), a[1..], b, from, n);
      assert (a + b)[1..] == a[1..] + b;
    }
  }

  lemma {:induction false} StepsOutside(at: nat, ts: seq<Token>, from: nat, n: nat)
    requires at + Spans(ts) <= from || at >= from + n
    ensures Steps(at, ts, from, n)
    decreases ts
  {
    if ts != [] {
      StepsOutside(at + TokenLength(ts[0]), ts[1..], from, n);
    }
  }

  lemma {:induction false} StepsCopies(at: nat, k: nat, from: nat, n: nat)
    requires at >= from && (at - from) % SLICE == 0
    ensures Steps(at, Copies(k), from, n) && Spans(Copies(k)) == SLICE * k
    decreases k
  {
    if k > 0 {
      StepsCopies(at + SLICE, k - 1, from, n);
      assert Copies(k)[1..] == Copies(k - 1);
    }
  }

  lemma {:induction false} StepsPrefix(at: nat, ts: seq<Token>, p: seq<Token>, from: nat, n: nat)
    requires Steps(at, ts, from, n) && p <= ts
    ensures NotInside(at + Spans(p), from, n)
    decreases ts
  {
    if p != [] {
      StepsPrefix(at + TokenLength(ts[0]), ts[1..], p[1..], from, n);
    }
  }

  lemma {:induction false} SpansLiterals(bs: seq<byte>)
    ensures Spans(Literals(bs)) == |bs|
    decreases |bs|
  {
    if bs != [] {
      SpansLiterals(bs[1..]);
      assert Literals(bs)[1..] == Literals(bs[1..]);
    }
  }

  lemma {:induction false} LiteralsConcat(a: seq<byte>, b: seq<byte>)
    ensures Literals(a + b) == Literals(a) + Literals(b)
    decreases |a|
  {
    if a == [] {
      assert a + b == b;
    } else {
      LiteralsConcat(a[1..], b);
      assert (a + b)[1..] == a[1..] + b;
    }
  }

  lemma EncodeLiterals(u: seq<byte>, v: seq<byte>, s: seq<byte>, pad: seq<bool>, bits: seq<bool>)
    requires s == u + v && bits == EncodeTokens(STATIC_CONFIG, Literals(s)) + pad
    ensures bits == EncodeTokens(STATIC_CONFIG, Literals(u)) + (EncodeTokens(STATIC_CONFIG, Literals(v)) + pad)
    ensures |EncodeTokens(STATIC_CONFIG, Literals(u))| == 9 * |u| && Spans(Literals(u)) == |u|
  {
    LiteralsConcat(u, v);
    EncodeConcat(Literals(u), Literals(v));
    ExpandLiterals([], u);
    SpansLiterals(u);
    Assoc(EncodeTokens(STATIC_CONFIG, Literals(u)), EncodeTokens(STATIC_CONFIG, Literals(v)), pad);
  }

  /** Of bytes kept as they are, k bytes of compressed data hold one for every nine bits. */
  lemma DecodeLiterals(q: seq<byte>, s: seq<byte>, pad: seq<bool>, k: nat, n: nat)
    requires |pad| < 8 && Bits(q) == EncodeTokens(STATIC_CONFIG, Literals(s)) + pad && k <= |q|
    requires n == if 8 * k / 9 < |s| then 8 * k / 9 else |s|
    ensures |Decode(STATIC_CONFIG, q[..k])| == n
  {
    var u, v, bits := s[..n], s[n..], Bits(q);
    EncodeLiterals(u, v, s, pad, bits);
    assert 9 * n <= 8 * k && (v == [] || 8 * k < 9 * n + 9);
    DecodeSome(q, bits, u, v, pad, k, n);
  }

  lemma DecodeSome(q: seq<byte>, bits: seq<bool>, u: seq<byte>, v: seq<byte>, pad: seq<bool>, k: nat, n: nat)
    requires |pad| < 8 && bits == Bits(q) && k <= |q| && n == |u| && 9 * n <= 8 * k && (v == [] || 8 * k < 9 * n + 9)
    requires bits == EncodeTokens(STATIC_CONFIG, Literals(u)) + (EncodeTokens(STATIC_CONFIG, Literals(v)) + pad)
    requires |EncodeTokens(STATIC_CONFIG, Literals(u))| == 9 * n && Spans(Literals(u)) == n
    ensures |Decode(STATIC_CONFIG, q[..k])| == n
  {
    var rest := DecodeParts(q, Literals(u), Literals(v), pad, k);
    NoneParsed(v, pad, rest);
  }

  lemma NoneParsed(s: seq<byte>, pad: seq<bool>, bits: seq<bool>)
    requires |pad| < 8 && bits <= EncodeTokens(STATIC_CONFIG, Literals(s)) + pad && (s == [] || |bits| < 9)
    ensures ParseTokens(STATIC_CONFIG, bits) == []
  {
    if s == [] {
      ParsePrefix([], pad, bits);
    } else {
      var first := TokenBits(STATIC_CONFIG, Literals(s)[0]);
      assert bits != [] ==> bits[0] == first[0];
    }
  }

  lemma OneStep(at: nat, t: Token, from: nat, n: nat)
    requires NotInside(at, from, n) && NotInside(at + TokenLength(t), from, n)
    ensures Steps(at, [t], from, n) && Spans([t]) == TokenLength(t)
  {
    assert [t][1..] == [];
  }

  // -- how long an encoding is --------------------------------------------------------------

  function Encoded(ts: seq<Token>): nat
    requires AllWf(ts)
  {
    |EncodeTokens(STATIC_CONFIG, ts)|
  }

  lemma EncodedConcat(a: seq<Token>, b: seq<Token>)
    requires AllWf(a) && AllWf(b)
    ensures AllWf(a + b) && Encoded(a + b) == Encoded(a) + Encoded(b)
  {
    EncodeConcat(a, b);
  }

  lemma EncodedRef(d: nat, n: nat)
    requires 1 <= d <= 256 && 1 <= n <= 128
    ensures AllWf([BackRef(d, n)]) && Encoded([BackRef(d, n)]) == 16
  {
    WfRef(d, n);
    assert BackRef(d, n) in [BackRef(d, n)];
    EncodeCons(BackRef(d, n), []);
    assert [BackRef(d, n)] + [] == [BackRef(d, n)];
  }
}
