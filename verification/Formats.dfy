/** The byte formats in numbers: size fields, outer header, compressed tokens, and the
    header of the patch partition. */
module Formats {
  import opened Bytes
  import opened HeatshrinkSpec
  import opened Varint
  import PatchSpec
  import PatchHeader
  import FlashSpec
  import Encoding
  import RoundTrip

  // -- size fields -----------------------------------------------------------------------

  /** Four bytes at most, all but the last of them 128 or more. */
  predicate IsField(bs: seq<byte>) {
    1 <= |bs| <= 4 && bs[|bs| - 1] < 128 && forall i :: 0 <= i < |bs| - 1 ==> bs[i] >= 128
  }

  function Weighted(bs: seq<byte>, i: nat, weight: nat): nat {
    if i < |bs| then weight * (bs[i] as int % 128) else 0
  }

  /** The weights of the bytes are 1, 64, 8192 and 1048576. */
  function FieldValue(bs: seq<byte>): nat
    requires 1 <= |bs| <= 4
  {
    bs[0] as int % 64 + Weighted(bs, 1, 64) + Weighted(bs, 2, 8192) + Weighted(bs, 3, 1048576)
  }

  lemma Begun(bs: seq<byte>, n: nat)
    requires 1 <= n <= |bs| <= 5 && n <= 4 && forall i :: 0 <= i < n ==> bs[i] >= 128
    ensures ReadSize(First, bs[..n]) == Partial(More(FieldValue(bs[..n]), 7 * n - 1, bs[0] / 64 % 2 == 1))
  {
    Offsets();
    if n == 1 {
      assert bs[..1][..0] == [];
    } else {
      Begun(bs, n - 1);
      assert bs[..n][..n - 1] == bs[..n - 1];
    }
  }

  /** A field that is complete: bit 64 of the first byte is the sign. */
  lemma FieldExact(bs: seq<byte>)
    requires IsField(bs)
    ensures var v: int := FieldValue(bs); ReadSize(First, bs) == Complete(if bs[0] / 64 % 2 == 1 then -v else v)
  {
    var n := |bs| - 1;
    if n == 0 {
      assert bs[..0] == [];
    } else {
      Begun(bs, n);
      LastWeight(bs, n);
    }
  }

  lemma LastWeight(bs: seq<byte>, n: nat)
    requires 1 <= n == |bs| - 1 <= 3 && bs[n] < 128
    ensures !IsOverflow(7 * n - 1) && FieldValue(bs) == FieldValue(bs[..n]) + bs[n] % 128 * Pow2(7 * n - 1)
  {
    Offsets();
  }

  /** A fifth byte is too much, and fewer than that are not enough. */
  lemma FieldBounds(bs: seq<byte>)
    requires 1 <= |bs| <= 5 && forall i :: 0 <= i < |bs| && i < 4 ==> bs[i] >= 128
    ensures if |bs| == 5 then ReadSize(First, bs) == Overflow else ReadSize(First, bs).Partial?
  {
    Begun(bs, if |bs| == 5 then 4 else |bs|);
    assert bs[..|bs|] == bs;
  }

  // -- the outer header ----------------------------------------------------------------------

  lemma HeaderBegun(p: seq<byte>, n: nat)
    requires 1 <= n <= 4 && n < |p| && p[0] / 16 % 8 == 0 && forall i :: 1 <= i <= n ==> p[i] >= 128
    ensures PatchSpec.Header(p) == PatchSpec.HeaderTail(p, n + 1, FieldValue(p[1..n + 1]), 7 * n - 1)
  {
    Offsets();
    if n > 1 {
      HeaderBegun(p, n - 1);
      assert p[1..n + 1][..n - 1] == p[1..n];
    }
  }

  /** Type zero in bits 4 to 6, then a field whose sign is not looked at. */
  lemma HeaderExact(first: byte, bs: seq<byte>, rest: seq<byte>)
    requires first / 16 % 8 == 0 && IsField(bs)
    ensures PatchSpec.Header([first] + bs + rest) == PatchSpec.HeaderOk(FieldValue(bs), 1 + |bs|)
  {
    Offsets();
    var p, n := [first] + bs + rest, |bs| - 1;
    assert p[1..n + 1] == bs[..n];
    assert forall i :: 1 <= i <= n + 1 ==> p[i] == bs[i - 1];
    if n > 0 {
      HeaderBegun(p, n);
    }
  }

  /** Without a last byte: up to five bytes are too short, six are an overflow. */
  lemma HeaderBounds(p: seq<byte>)
    requires p != [] && p[0] / 16 % 8 == 0 && forall i :: 1 <= i < |p| && i < 5 ==> p[i] >= 128
    ensures PatchSpec.Header(p) == PatchSpec.HeaderError(if |p| <= 5 then -18 else -25)
  {
    if |p| > 1 {
      HeaderBegun(p, if |p| > 5 then 4 else |p| - 1);
    }
  }

  // -- compressed data --------------------------------------------------------------------------

  lemma {:induction false} BinaryParts(x: nat, y: nat, j: nat, k: nat, p: nat)
    requires p == Pow2(k) && y < p
    ensures Binary(x * p + y, j + k) == Binary(x, j) + Binary(y, k)
  {
    if k == 0 {
      NothingMore(Binary(x, j));
    } else {
      var half := Pow2(k - 1);
      assert x * p == 2 * (x * half) by {
        DoubleScale(x, half);
      }
      BinaryParts(x, y / 2, j, k - 1, half);
      Assoc(Binary(x, j), Binary(y / 2, k - 1), [y % 2 == 1]);
    }
  }

  /** A byte is its highest bit and the others. */
  lemma HighBit(t: nat, y: nat, b: byte)
    requires t < 2 && y < 128 && b == t * 128 + y
    ensures BitsOf(b) == [t == 1] + Binary(y, 7)
  {
    Seven();
    BinaryParts(t, y, 1, 7, 128);
    OneBit(t);
  }

  lemma Seven()
    ensures Pow2(6) == 64 && Pow2(7) == 128
  {
    Offsets();
  }

  lemma OneBit(t: nat)
    requires t < 2
    ensures Binary(t, 1) == [t == 1]
  {
    assert Binary(t / 2, 0) == [];
  }

  /** The two highest bits and the others. */
  lemma TwoHighBits(t: nat, u: nat, y: nat, b: byte)
    requires t < 2 && u < 2 && y < 64 && b == t * 128 + u * 64 + y
    ensures BitsOf(b) == [t == 1] + ([u == 1] + Binary(y, 6))
  {
    Seven();
    HighBit(t, u * 64 + y, b);
    BinaryParts(u, y, 1, 6, 64);
    OneBit(u);
  }

  lemma LowBits(i: byte)
    ensures Binary(i, 8) == Binary(i / 4, 6) + ([i / 2 % 2 == 1] + [i % 2 == 1]) && i % 4 == i / 2 % 2 * 2 + i % 2
  {
    assert Binary(i, 8) == Binary(i / 2, 7) + [i % 2 == 1];
    assert i / 2 / 2 == i / 4;
  }

  /** A literal is a one and eight bits, a back-reference a zero, the distance less one in
      eight bits and the length less one in seven. */
  lemma FourBytes(b: byte, i: byte, n: nat, q: seq<byte>)
    requires n < 128 && q == [128 + b / 2, b % 2 * 128 + i / 4, i % 4 * 64 + n / 2, n % 2 * 128]
    ensures Bits(q) == [true] + Binary(b, 8) + ([false] + Binary(i, 8) + Binary(n, 7)) + Binary(0, 7)
  {
    LowBits(i);
    HighBit(1, b / 2, q[0]);
    TwoHighBits(b % 2, 0, i / 4, q[1]);
    TwoHighBits(i / 2 % 2, i % 2, n / 2, q[2]);
    HighBit(n % 2, 0, q[3]);
    FourBits(q[0], q[1], q[2], q[3]);
    Grouped([true], Binary(b / 2, 7), [b % 2 == 1], [false], Binary(i / 4, 6), [i / 2 % 2 == 1], [i % 2 == 1],
            Binary(n / 2, 6), [n % 2 == 1], Binary(0, 7));
  }

  lemma FourBits(a: byte, b: byte, c: byte, d: byte)
    ensures Bits([a, b, c, d]) == BitsOf(a) + (BitsOf(b) + (BitsOf(c) + BitsOf(d)))
  {
    BitsCons(a, [b, c, d], [a, b, c, d]);
    BitsCons(b, [c, d], [b, c, d]);
    BitsCons(c, [d], [c, d]);
    BitsCons(d, [], [d]);
    NothingMore(BitsOf(d));
  }

  lemma BitsCons(b: byte, rest: seq<byte>, bs: seq<byte>)
    requires bs == [b] + rest
    ensures Bits(bs) == BitsOf(b) + Bits(rest)
  {
    assert bs[1..] == rest;
  }

  lemma Grouped<T>(t: seq<T>, b: seq<T>, b': seq<T>, u: seq<T>, i: seq<T>, j: seq<T>, j': seq<T>, n: seq<T>,
                   n': seq<T>, pad: seq<T>)
    ensures (t + b) + ((b' + (u + i)) + ((j + (j' + n)) + (n' + pad))) ==
      t + (b + b') + (u + (i + (j + j')) + (n + n')) + pad
  {
    assert (t + b) + ((b' + (u + i)) + ((j + (j' + n)) + (n' + pad))) == t + b + b' + u + i + j + j' + n + n' + pad;
  }

  /** What a byte and a copy of it decode to. */
  lemma DecodeFour(b: byte, i: byte, n: nat, q: seq<byte>)
    requires n < 128 && q == [128 + b / 2, b % 2 * 128 + i / 4, i % 4 * 64 + n / 2, n % 2 * 128]
    ensures Decode(STATIC_CONFIG, q) == Copy([b], i + 1, n + 1)
  {
    var copy := BackRef(i + 1, n + 1);
    FourBytes(b, i, n, q);
    TwoTokens(b, copy);
    RoundTrip.DecodeCompressed(q, [Literal(b), copy], Binary(0, 7));
  }

  lemma TwoTokens(b: byte, copy: Token)
    requires copy.BackRef? && 1 <= copy.distance <= 256 && 1 <= copy.length <= 128
    ensures WfToken(STATIC_CONFIG, Literal(b)) && WfToken(STATIC_CONFIG, copy)
    ensures EncodeTokens(STATIC_CONFIG, [Literal(b), copy]) ==
      [true] + Binary(b, 8) + ([false] + Binary(copy.distance - 1, 8) + Binary(copy.length - 1, 7))
    ensures Expand(STATIC_CONFIG, [], [Literal(b), copy]) == Copy([b], copy.distance, copy.length)
  {
    Encoding.WfRef(copy.distance, copy.length);
    assert copy in [copy];
    Encoding.EncodeCons(copy, []);
    Encoding.EncodeCons(Literal(b), [copy]);
    Encoding.ExpandCons([b], copy, []);
    Encoding.ExpandCons([], Literal(b), [copy]);
    NothingMore([copy]);
    NothingMore(TokenBits(STATIC_CONFIG, copy));
    Pair(Literal(b), copy);
    assert [] + [b] == [b];
  }

  lemma Pair<T>(x: T, y: T)
    ensures [x] + [y] == [x, y]
  {
  }

  lemma {:induction false} CopyAt(hist: seq<byte>, distance: nat, n: nat, j: nat)
    requires 1 <= distance && |hist| <= j < |hist| + n
    ensures var r := Copy(hist, distance, n); r[j] == if j >= distance then r[j - distance] else 0
    decreases n
  {
    var next := hist + [Back(hist, distance)];
    if j > |hist| {
      CopyAt(next, distance, n - 1, j);
    }
  }

  lemma {:induction false} Repeats(b: byte, distance: nat, n: nat, j: nat)
    requires 1 <= distance && j <= n
    ensures Copy([b], distance, n)[j] == if j % distance == 0 then b else 0
    decreases j
  {
    if j > 0 {
      CopyAt([b], distance, n, j);
      if j >= distance {
        Repeats(b, distance, n, j - distance);
        ModShift(j, j - distance, distance, 1);
      }
    }
  }

  /** Four bytes of compressed data for every literal, distance and length: before the
      begin of the output there are zeros. */
  lemma TokensExact(b: byte, distance: nat, length: nat)
    requires 1 <= distance <= 256 && 1 <= length <= 128
    ensures var i, n := distance - 1, length - 1;
      var out := Decode(STATIC_CONFIG, [128 + b / 2, b % 2 * 128 + i / 4, i % 4 * 64 + n / 2, n % 2 * 128]);
      |out| == 1 + length && forall j :: 0 <= j <= length ==> out[j] == if j % distance == 0 then b else 0
  {
    var i, n := distance - 1, length - 1;
    DecodeFour(b, i, n, [128 + b / 2, b % 2 * 128 + i / 4, i % 4 * 64 + n / 2, n % 2 * 128]);
    forall j | 0 <= j <= length ensures Copy([b], distance, length)[j] == if j % distance == 0 then b else 0 {
      Repeats(b, distance, length, j);
    }
  }

  // -- the patch partition -------------------------------------------------------------------------

  /** The letters NEWP and the size, least significant byte first. */
  lemma PaddedExact(patch: seq<byte>)
    requires |patch| < 0x1_0000_0000
    ensures PatchHeader.PadPatch(patch) ==
      [0x4E, 0x45, 0x57, 0x50, |patch| % 256, |patch| / 256 % 256, |patch| / 65536 % 256, |patch| / 16777216] + patch
  {
    var n := |patch|;
    assert n / 256 / 256 == n / 65536 && n / 65536 / 256 == n / 16777216;
  }
}
