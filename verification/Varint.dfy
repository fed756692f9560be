/** The size fields of a patch: a first byte with 6 value bits, then bytes with 7. */
module Varint {
  import opened Bytes

  /** detools_unpack_usize_t between two bytes. */
  datatype SizeState = First | More(value: nat, offset: nat, isSigned: bool)

  datatype SizeResult = Partial(state: SizeState) | Complete(size: int) | Overflow

  predicate IsOverflow(offset: nat) {
    offset + 7 > 8 * 4
  }

  predicate WfSize(s: SizeState) {
    s.More? ==> s.offset in {6, 13, 20, 27} && s.value < Pow2(s.offset)
  }

  function Signed(value: int, isSigned: bool): int {
    if isSigned then -value else value
  }

  /** One more byte of a size. */
  function SizeByte(s: SizeState, b: byte): SizeResult {
    match s
    case First =>
      var signed := b / 64 % 2 == 1;
      if b < 128 then Complete(Signed(b % 64, signed)) else Partial(More(b % 64, 6, signed))
    case More(value, offset, signed) =>
      if IsOverflow(offset) then Overflow
      else
        var value' := value + b % 128 * Pow2(offset);
        if b < 128 then Complete(Signed(value', signed)) else Partial(More(value', offset + 7, signed))
  }

  /** Every size accepted is below 2^27 in magnitude, so no shift overflows. */
  lemma SizeByteBound(s: SizeState, b: byte)
    requires WfSize(s)
    ensures SizeByte(s, b).Partial? ==> WfSize(SizeByte(s, b).state) && SizeByte(s, b).state.More?
    ensures SizeByte(s, b).Complete? ==> -0x800_0000 < SizeByte(s, b).size < 0x800_0000
  {
    if s.First? {
      FirstBound(b);
    } else if s.offset < 27 {
      MoreBound(s.value, s.offset, b, s.value + b % 128 * Pow2(s.offset));
    }
  }

  lemma MoreBound(value: nat, offset: nat, b: byte, value': nat)
    requires offset in {6, 13, 20} && value < Pow2(offset) && value' == value + b % 128 * Pow2(offset)
    ensures value' < Pow2(offset + 7) && value' < 0x800_0000
  {
    ShiftBound(value, offset, b);
  }

  lemma FirstBound(b: byte)
    ensures b % 64 < Pow2(6) == 64
  {
    Offsets();
  }

  /** The byte is shifted clear of the bits already there, and stays below 2^27. */
  lemma ShiftBound(value: nat, offset: nat, b: byte)
    requires offset in {6, 13, 20} && value < Pow2(offset)
    ensures value + b % 128 * Pow2(offset) < Pow2(offset + 7) <= 0x800_0000
    ensures b % 128 * Pow2(offset) % Pow2(offset) == 0
  {
    Offsets();
    ModUnique(b % 128 * Pow2(offset), Pow2(offset), b % 128, 0);
  }

  lemma Offsets()
    ensures Pow2(6) == 0x40 && Pow2(13) == 0x2000 && Pow2(20) == 0x10_0000 && Pow2(27) == 0x800_0000
    ensures Pow2(34) == 0x4_0000_0000
  {
    assert Pow2(6) == 0x40;
    assert Pow2(7) == 0x80;
    Pow2Add(7, 6);
    Pow2Add(7, 13);
    Pow2Add(7, 20);
    Pow2Add(7, 27);
  }

  /** The bytes of a size seen so far. Bytes after the last one are an error of
      the caller and read as an overflow. */
  function ReadSize(s: SizeState, bs: seq<byte>): SizeResult {
    if bs == [] then Partial(s)
    else match ReadSize(s, bs[..|bs| - 1])
      case Partial(s') => SizeByte(s', bs[|bs| - 1])
      case _ => Overflow
  }

  lemma ReadSizeSnoc(s: SizeState, bs: seq<byte>, b: byte)
    requires ReadSize(s, bs).Partial?
    ensures ReadSize(s, bs + [b]) == SizeByte(ReadSize(s, bs).state, b)
  {
    assert (bs + [b])[..|bs + [b]| - 1] == bs;
  }

  // -- the packer -----------------------------------------------------------------

  /** The 7-bit groups of n after the first byte. */
  function PackTail(n: nat): (bs: seq<byte>)
    ensures bs != []
  {
    if n < 128 then [n] else [128 + n % 128] + PackTail(n / 128)
  }

  function Magnitude(v: int): nat {
    if v < 0 then -v else v
  }

  /** The host's packing of a signed size. */
  function PackSize(v: int): (bs: seq<byte>)
    ensures bs != []
  {
    var m := Magnitude(v);
    var head: byte := m % 64 + (if v < 0 then 64 else 0);
    if m < 64 then [head] else [head + 128] + PackTail(m / 64)
  }

  lemma {:induction false} ReadSizeConcat(s: SizeState, a: seq<byte>, b: seq<byte>)
    requires ReadSize(s, a).Partial?
    ensures ReadSize(s, a + b) == ReadSize(ReadSize(s, a).state, b)
  {
    if b == [] {
      assert a + b == a;
    } else {
      var init := b[..|b| - 1];
      ReadSizeConcat(s, a, init);
      assert (a + b)[..|a + b| - 1] == a + init;
    }
  }

  /** A packed tail adds n at the current offset. */
  lemma {:induction false} ReadPackedTail(s: SizeState, n: nat, total: nat)
    requires s.More? && s.offset in {6, 13, 20} && total == s.value + n * Pow2(s.offset)
    requires n * Pow2(s.offset) < 0x800_0000
    ensures ReadSize(s, PackTail(n)) == Complete(Signed(total, s.isSigned))
    decreases n
  {
    if n < 128 {
      LastByte(s, n, total);
    } else {
      var b, next := NextByte(s, n, total);
      ReadPackedTail(next, n / 128, total);
      ReadSizeConcat(s, [b], PackTail(n / 128));
    }
  }

  lemma LastByte(s: SizeState, n: nat, total: nat)
    requires s.More? && s.offset in {6, 13, 20} && n < 128 && total == s.value + n * Pow2(s.offset)
    ensures ReadSize(s, PackTail(n)) == Complete(Signed(total, s.isSigned))
  {
    ReadOne(s, n);
    assert n % 128 == n;
  }

  lemma NextByte(s: SizeState, n: nat, total: nat) returns (b: byte, next: SizeState)
    requires s.More? && s.offset in {6, 13, 20} && n >= 128
    requires total == s.value + n * Pow2(s.offset) && n * Pow2(s.offset) < 0x800_0000
    ensures PackTail(n) == [b] + PackTail(n / 128) && ReadSize(s, [b]) == Partial(next)
    ensures next.More? && next.offset in {13, 20} && next.isSigned == s.isSigned
    ensures total == next.value + n / 128 * Pow2(next.offset) && n / 128 * Pow2(next.offset) < 0x800_0000
  {
    var low, high := n % 128, n / 128;
    b := 128 + low;
    next := More(s.value + low * Pow2(s.offset), s.offset + 7, s.isSigned);
    TopBit(b, low);
    ReadHigh(s, b, low, next);
    NextOffset(n, s.offset);
  }

  lemma TopBit(b: byte, low: nat)
    requires low < 128 && b == 128 + low
    ensures b % 128 == low
  {
  }

  lemma ReadHigh(s: SizeState, b: byte, low: nat, next: SizeState)
    requires s.More? && s.offset in {6, 13, 20} && b >= 128 && b % 128 == low
    requires next == More(s.value + low * Pow2(s.offset), s.offset + 7, s.isSigned)
    ensures ReadSize(s, [b]) == Partial(next)
  {
    ReadOne(s, b);
  }

  lemma ReadOne(s: SizeState, b: byte)
    ensures ReadSize(s, [b]) == SizeByte(s, b)
  {
    ReadSizeSnoc(s, [], b);
    assert [] + [b] == [b];
  }

  lemma NextOffset(n: nat, offset: nat)
    requires n >= 128 && offset in {6, 13, 20} && n * Pow2(offset) < 0x800_0000
    ensures offset < 20
    ensures n * Pow2(offset) == n % 128 * Pow2(offset) + n / 128 * Pow2(offset + 7)
  {
    Offsets();
    var q, r := n / 128, n % 128;
    assert n == 128 * q + r;
    assert n * Pow2(offset) == (128 * q + r) * Pow2(offset);
  }

  /** Reading back a packed size gives it, for every size the reader can hold. */
  lemma ReadPacked(v: int)
    requires -0x800_0000 < v < 0x800_0000
    ensures ReadSize(First, PackSize(v)) == Complete(v)
  {
    var m := Magnitude(v);
    var head: byte := m % 64 + (if v < 0 then 64 else 0);
    if m < 64 {
      ReadOne(First, head);
    } else {
      ReadTwo(v, m, head);
    }
  }

  lemma ReadTwo(v: int, m: nat, head: byte)
    requires 64 <= m == Magnitude(v) < 0x800_0000 && head == m % 64 + (if v < 0 then 64 else 0)
    ensures ReadSize(First, [head + 128] + PackTail(m / 64)) == Complete(v)
  {
    var s := More(m % 64, 6, v < 0);
    Offsets();
    ReadOne(First, head + 128);
    assert SizeByte(First, head + 128) == Partial(s);
    ReadPackedTail(s, m / 64, m);
    ReadSizeConcat(First, [head + 128], PackTail(m / 64));
  }
}
