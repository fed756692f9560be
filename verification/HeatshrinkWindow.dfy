/** The ring window: slot (head - k) mod 2^w holds the k-th most recent byte. */
module HeatshrinkWindow {
  import opened Bytes
  import opened HeatshrinkSpec

  /** Ring slot of output position j (negative before the start). */
  function Slot(c: Config, j: int): (s: nat)
    ensures s < Pow2(c.w)
  {
    j % Pow2(c.w)
  }

  ghost predicate Mirrors(c: Config, window: seq<byte>, hist: seq<byte>) {
    && |window| == Pow2(c.w)
    && forall k :: 1 <= k <= Pow2(c.w) ==> window[Slot(c, |hist| - k)] == Back(hist, k)
  }

  lemma SlotDistinct(c: Config, j: int, d: nat)
    requires 1 <= d < Pow2(c.w)
    ensures Slot(c, j - d) != Slot(c, j)
  {
    var n := Pow2(c.w);
    if Slot(c, j - d) == Slot(c, j) {
      var k := j / n - (j - d) / n;
      assert k * n == j / n * n - (j - d) / n * n;
      assert d == k * n;
      if k >= 1 { Scale(k, n); }
    }
  }

  /** A cleared window mirrors the empty history. */
  lemma MirrorsClear(c: Config, window: seq<byte>)
    requires |window| == Pow2(c.w) && (forall i :: 0 <= i < |window| ==> window[i] == 0)
    ensures Mirrors(c, window, [])
  {
  }

  /** Writing the newest byte at the head keeps the window a mirror. */
  lemma MirrorsPush(c: Config, window: seq<byte>, slot: nat, hist: seq<byte>, b: byte)
    requires Mirrors(c, window, hist) && slot == Slot(c, |hist|)
    ensures Mirrors(c, window[slot := b], hist + [b])
  {
    forall k | 1 <= k <= Pow2(c.w)
      ensures window[slot := b][Slot(c, |hist + [b]| - k)] == Back(hist + [b], k)
    {
      assert |hist + [b]| - k == |hist| - (k - 1);
      if k > 1 {
        SlotDistinct(c, |hist|, k - 1);
        assert Back(hist + [b], k) == Back(hist, k - 1);
      }
    }
  }

  /** The 16-bit head index may wrap: masking still finds the slot. */
  lemma HeadSlot(c: Config, head: nat, length: nat, d: nat)
    requires ValidConfig(c) && head == length % 0x1_0000
    ensures (head - d) % Pow2(c.w) == Slot(c, length - d)
  {
    var n := Pow2(c.w);
    Pow2Add(c.w, 16 - c.w);
    assert Pow2(8) == 256;
    Pow2Add(8, 8);
    var m := Pow2(16 - c.w);
    var q := length / 0x1_0000;
    MulAssoc(q, m, n);
    ModShift(length - d, head - d, n, q * m);
  }

  /** One `buf[head_index++ & mask] = c`. */
  lemma WindowStep(c: Config, window: seq<byte>, head: nat, slot: nat, hist: seq<byte>, b: byte)
    requires ValidConfig(c) && head == |hist| % 0x1_0000 && slot == head % Pow2(c.w) && Mirrors(c, window, hist)
    ensures slot < |window| && Mirrors(c, window[slot := b], hist + [b])
    ensures (head + 1) % 0x1_0000 == |hist + [b]| % 0x1_0000
  {
    HeadSlot(c, head, |hist|, 0);
    MirrorsPush(c, window, slot, hist, b);
    HeadNext(head, |hist|);
  }

  lemma HeadNext(head: nat, length: nat)
    requires head == length % 0x1_0000
    ensures (head + 1) % 0x1_0000 == (length + 1) % 0x1_0000
  {
  }

  lemma MulAssoc(a: int, b: int, c: int)
    ensures a * (c * b) == a * b * c
  {
  }
}
