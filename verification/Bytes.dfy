/** Bytes, MSB-first bit strings and the bitwise operators of the C sources. */
module Bytes {

  type byte = b: int | 0 <= b < 256

  datatype Option<+T> = None | Some(value: T)

  function Pow2(n: nat): (p: nat)
    ensures p >= 1
  {
    if n == 0 then 1 else 2 * Pow2(n - 1)
  }

  lemma {:induction false} Pow2Add(a: nat, b: nat)
    ensures Pow2(a + b) == Pow2(a) * Pow2(b)
  {
    if a > 0 {
      Pow2Add(a - 1, b);
    }
  }

  lemma {:induction false} Pow2Mono(a: nat, b: nat)
    requires a <= b
    ensures Pow2(a) <= Pow2(b)
    decreases b - a
  {
    if a < b {
      Pow2Mono(a + 1, b);
    }
  }

  // -- bit strings ----------------------------------------------------------

  /** The number a bit string denotes, most significant bit first. */
  function Value(bits: seq<bool>): (v: nat) {
    if bits == [] then 0
    else 2 * Value(bits[..|bits| - 1]) + (if bits[|bits| - 1] then 1 else 0)
  }

  lemma {:induction false} ValueBound(bits: seq<bool>)
    ensures Value(bits) < Pow2(|bits|)
  {
    if bits != [] {
      ValueBound(bits[..|bits| - 1]);
    }
  }

  lemma ByteValue(bits: seq<bool>)
    requires |bits| <= 8
    ensures Value(bits) < 256
  {
    ValueBound(bits);
    Pow2Mono(|bits|, 8);
    assert Pow2(8) == 256;
  }

  /** The n-bit representation of v. */
  function Binary(v: nat, n: nat): (bits: seq<bool>)
    ensures |bits| == n
  {
    if n == 0 then [] else Binary(v / 2, n - 1) + [v % 2 == 1]
  }

  lemma {:induction false} ValueOfBinary(v: nat, n: nat)
    requires v < Pow2(n)
    ensures Value(Binary(v, n)) == v
  {
    if n > 0 {
      ValueOfBinary(v / 2, n - 1);
      assert Binary(v, n)[..n - 1] == Binary(v / 2, n - 1);
    }
  }

  lemma {:induction false} BinaryOfValue(bits: seq<bool>)
    ensures Binary(Value(bits), |bits|) == bits
  {
    if bits != [] {
      var init := bits[..|bits| - 1];
      BinaryOfValue(init);
      assert Value(bits) / 2 == Value(init);
      assert bits == init + [bits[|bits| - 1]];
    }
  }

  lemma {:induction false} ValueConcat(a: seq<bool>, b: seq<bool>)
    ensures Value(a + b) == Value(a) * Pow2(|b|) + Value(b)
  {
    if b == [] {
      assert a + b == a;
    } else {
      var init, p := b[..|b| - 1], Pow2(|b| - 1);
      ValueConcat(a, init);
      assert (a + b)[..|a + b| - 1] == a + init;
      assert (a + b)[|a + b| - 1] == b[|b| - 1];
      DoubleScale(Value(a), p);
    }
  }

  lemma DoubleScale(v: int, p: int)
    ensures v * (2 * p) == 2 * (v * p)
  {
  }

  /** The eight bits of a byte, the order in which the decoder reads them. */
  function BitsOf(b: byte): (bits: seq<bool>)
    ensures |bits| == 8
  {
    Binary(b, 8)
  }

  /** Bit n - k - 1 of the representation is what masking with 2^k tests. */
  lemma {:induction false} BinaryAt(v: nat, n: nat, k: nat)
    requires k < n
    ensures Binary(v, n)[n - k - 1] == (v / Pow2(k) % 2 == 1)
  {
    if k > 0 {
      BinaryAt(v / 2, n - 1, k - 1);
      DivDiv(v, Pow2(k - 1));
    }
  }

  lemma DivDiv(v: nat, p: nat)
    requires p >= 1
    ensures v / (2 * p) == v / 2 / p
  {
    var q, r := v / 2 / p, v / 2 % p;
    assert v / 2 == q * p + r;
    DoubleScale(q, p);
    ModUnique(v, 2 * p, q, 2 * r + v % 2);
  }

  function Bits(bs: seq<byte>): (bits: seq<bool>)
    ensures |bits| == 8 * |bs|
  {
    if bs == [] then [] else BitsOf(bs[0]) + Bits(bs[1..])
  }

  lemma {:induction false} BitsConcat(a: seq<byte>, b: seq<byte>)
    ensures Bits(a + b) == Bits(a) + Bits(b)
  {
    if a == [] {
      assert a + b == b;
    } else {
      BitsConcat(a[1..], b);
      assert (a + b)[1..] == a[1..] + b;
      Assoc(BitsOf(a[0]), Bits(a[1..]), Bits(b));
    }
  }

  lemma SnocInit<T>(a: seq<T>, x: T)
    ensures (a + [x])[..|a + [x]| - 1] == a
  {
  }

  lemma InitLast<T>(s: seq<T>)
    requires s != []
    ensures s == s[..|s| - 1] + [s[|s| - 1]]
  {
  }

  lemma LastOfConcat<T>(a: seq<T>, b: seq<T>)
    requires b != []
    ensures (a + b)[..|a + b| - 1] == a + b[..|b| - 1] && (a + b)[|a + b| - 1] == b[|b| - 1]
  {
  }

  lemma NothingMore<T>(s: seq<T>)
    ensures s + [] == s
  {
  }

  lemma HeadTail<T>(s: seq<T>, x: T, rest: seq<T>)
    requires |s| == |rest| + 1 && s[0] == x && forall i :: 0 <= i < |rest| ==> s[i + 1] == rest[i]
    ensures s == [x] + rest
  {
  }

  lemma NoneHeld(b: byte, bs: seq<byte>)
    requires bs == []
    ensures BitsOf(b)[8..] == [] && Bits(bs) == []
  {
  }

  lemma Assoc<T>(a: seq<T>, b: seq<T>, c: seq<T>)
    ensures a + (b + c) == a + b + c
  {
  }

  // -- bitwise operators ------------------------------------------------------

  function BitOr(a: nat, b: nat): (r: nat)
  {
    if a == 0 && b == 0 then 0
    else 2 * BitOr(a / 2, b / 2) + (if a % 2 == 1 || b % 2 == 1 then 1 else 0)
  }

  function BitAnd(a: nat, b: nat): (r: nat)
    ensures r <= a && r <= b
  {
    if a == 0 || b == 0 then 0
    else 2 * BitAnd(a / 2, b / 2) + (if a % 2 == 1 && b % 2 == 1 then 1 else 0)
  }

  /** OR-ing a field into the free low bits of a word adds it. */
  lemma {:induction false} OrIsAdd(high: nat, low: nat, k: nat)
    requires high % Pow2(k) == 0 && low < Pow2(k)
    ensures BitOr(high, low) == high + low
    decreases k, high
  {
    if k == 0 {
      OrZero(high);
    } else {
      var p := Pow2(k - 1);
      var q := high / (2 * p);
      assert high == 2 * p * q;
      HalveMultiple(high, p, q);
      OrIsAdd(high / 2, low / 2, k - 1);
    }
  }

  lemma {:induction false} OrCommutes(a: nat, b: nat)
    ensures BitOr(a, b) == BitOr(b, a)
  {
    if a > 0 || b > 0 {
      OrCommutes(a / 2, b / 2);
    }
  }

  lemma HalveMultiple(a: nat, p: nat, q: nat)
    requires p >= 1 && a == 2 * p * q
    ensures a % 2 == 0 && a / 2 == p * q && (a / 2) % p == 0
  {
    assert a == 2 * (p * q);
    ModUnique(p * q, p, q, 0);
  }

  lemma {:induction false} OrZero(a: nat)
    ensures BitOr(a, 0) == a
  {
    if a > 0 {
      OrZero(a / 2);
    }
  }

  /** AND with all ones keeps a value: programming an erased byte stores it. */
  lemma {:induction false} AndOnes(k: nat, b: nat)
    requires b < Pow2(k)
    ensures BitAnd(Pow2(k) - 1, b) == b
  {
    if k > 0 && b > 0 {
      AndOnes(k - 1, b / 2);
      assert (Pow2(k) - 1) / 2 == Pow2(k - 1) - 1;
    }
  }

  // -- division ---------------------------------------------------------------

  lemma ModUnique(x: int, n: int, q: int, r: int)
    requires 0 <= r < n && x == q * n + r
    ensures x % n == r && x / n == q
  {
    var d := x / n;
    assert x == d * n + x % n;
    assert (d - q) * n == d * n - q * n;
    assert (q - d) * n == q * n - d * n;
    if d > q {
      Scale(d - q, n);
    } else if d < q {
      Scale(q - d, n);
    }
  }

  lemma Scale(k: int, n: int)
    requires k >= 1 && n >= 0
    ensures k * n >= n
  {
  }

  lemma ModShift(a: int, b: int, n: int, k: int)
    requires n > 0 && a == b + k * n
    ensures a % n == b % n
  {
    assert (b / n + k) * n == b / n * n + k * n;
    ModUnique(a, n, b / n + k, b % n);
  }
}
