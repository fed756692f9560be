/** Patches whose end is missing: every proper prefix of a prepared patch is recognised
    as one, and what it writes is the begin of the target. */
module TruncatedPatches {
  import opened Bytes
  import opened HeatshrinkSpec
  import opened Varint
  import opened PatchSpec
  import opened PatchFacts
  import PatchRuns
  import RoundTrip

  lemma {:induction false} OutGrows(h: Host, m: Machine, bs: seq<byte>)
    requires Wf(m)
    ensures var r := ConsumeAll(h, m, bs); r.Running? ==> m.Running? && m.out <= r.out
  {
    if bs != [] {
      OutGrows(h, m, bs[..|bs| - 1]);
      OutOne(h, ConsumeAll(h, m, bs[..|bs| - 1]), bs[|bs| - 1]);
    }
  }

  lemma OutOne(h: Host, m: Machine, b: byte)
    requires Wf(m)
    ensures var r := Consume(h, m, b); r.Running? ==> m.Running? && m.out <= r.out
  {
  }

  /** A machine that uses all of the bytes is not done before the last of them. */
  lemma NotDoneBefore(h: Host, m0: Machine, a: seq<byte>, bs: seq<byte>)
    requires Wf(m0) && m0.Running? && m0.used == 0 && a < bs
    requires var last := ConsumeAll(h, m0, bs); last.Running? && last.used == |bs|
    ensures var m := ConsumeAll(h, m0, a);
      m.Running? && m.state != Done && m.out <= ConsumeAll(h, m0, bs).out
  {
    var b := bs[|a|..];
    assert bs == a + b;
    var m := ConsumeAll(h, m0, a);
    ConsumeConcat(h, m0, a, b);
    UsedAll(h, m0, a);
    OutGrows(h, m, b);
    if Over(m) {
      ConsumeOver(h, m, b);
    }
  }

  /** A part of the compressed data decodes to less than all of it. */
  lemma DecodesLess(q: seq<byte>, k: nat)
    requires k < |q| && |Decode(STATIC_CONFIG, q[..|q| - 1])| < |Decode(STATIC_CONFIG, q)|
    ensures Decode(STATIC_CONFIG, q[..k]) < Decode(STATIC_CONFIG, q)
  {
    assert q[..|q| - 1] == q[..k] + q[k..|q| - 1] && q == q[..k] + q[k..];
    DecodeMonotone(STATIC_CONFIG, q[..k], q[k..|q| - 1]);
    DecodeMonotone(STATIC_CONFIG, q[..k], q[k..]);
  }

  /** The data ends in the middle. */
  lemma StreamEnds(h: Host, toSize: nat, stream: seq<byte>, bs: seq<byte>)
    requires toSize > 0 && stream != [] && GoodWindow(stream[0]) && Decode(STATIC_CONFIG, stream[1..]) < bs
    requires var last := ConsumeAll(h, Started(toSize), bs); last.Running? && last.used == |bs|
    ensures var o := Verdict(h, Started(toSize), stream);
      o.result == -19 && o.out <= ConsumeAll(h, Started(toSize), bs).out
  {
    NotDoneBefore(h, Started(toSize), Decode(STATIC_CONFIG, stream[1..]), bs);
  }

  /** A header is there when all of its bytes are. */
  lemma HeaderEnds(file: seq<byte>, n: nat, toSize: nat, length: nat)
    requires Header(file) == HeaderOk(toSize, length) && n <= |file| && length <= |file|
    ensures Header(file[..n]) == if n < length then HeaderError(-18) else HeaderOk(toSize, length)
  {
    if n < length {
      assert file == file[..n] + file[n..];
      if HeaderDecided(file[..n]) {
        HeaderPrefix(file[..n], file[n..]);
      }
    } else {
      HeaderStays(file[..length], file[length..n], file[n..], file, toSize);
      assert file[..n] == file[..length] + file[length..n];
    }
  }

  lemma HeaderStays(a: seq<byte>, b: seq<byte>, c: seq<byte>, file: seq<byte>, toSize: nat)
    requires file == a + (b + c) && Header(file) == HeaderOk(toSize, |a|)
    ensures Header(a + b) == HeaderOk(toSize, |a|)
  {
    PatchRuns.HeaderCut(a, b + c, toSize);
    assert PatchRuns.OpenHeader(true);
    HeaderPrefix(a, b);
  }

  /** A file that ends with all of its data needed, cut off behind n bytes. */
  lemma FileEnds(h: Host, file: seq<byte>, toSize: nat, length: nat, q: seq<byte>, n: nat)
    requires Header(file) == HeaderOk(toSize, length) && toSize > 0 && n < |file|
    requires length < |file| && file[length] == 0x44 && file[length + 1..] == q
    requires q != [] && |Decode(STATIC_CONFIG, q[..|q| - 1])| < |Decode(STATIC_CONFIG, q)|
    requires var last := ConsumeAll(h, Started(toSize), Decode(STATIC_CONFIG, q));
      last.Running? && last.used == |Decode(STATIC_CONFIG, q)|
    ensures var o := Apply(h, file[..n]);
      && o.result == (if n < length then -18 else -19)
      && o.out <= ConsumeAll(h, Started(toSize), Decode(STATIC_CONFIG, q)).out
  {
    HeaderEnds(file, n, toSize, length);
    if n > length {
      var stream := file[..n][length..];
      assert stream[0] == 0x44 && stream[1..] == q[..n - length - 1];
      DecodesLess(q, n - length - 1);
      StreamEnds(h, toSize, stream, Decode(STATIC_CONFIG, q));
    }
  }

  /** Every proper prefix of a prepared patch ends with SHORT_HEADER or, from the last
      byte of the target size on, with NOT_ENOUGH_PATCH_DATA, after a part of the target. */
  lemma Truncated(h: Host, target: seq<byte>, blocks: seq<RoundTrip.Block>, first: byte,
                  q: seq<byte>, ts: seq<Token>, pad: seq<bool>, n: nat)
    requires target == RoundTrip.Target(blocks) && target != [] && |target| < 0x800_0000 && |target| < h.room
    requires RoundTrip.ValidPlan(h, 0, blocks) && first / 16 % 8 == 0
    requires RoundTrip.Compresses(q, ts, pad)
    requires Expand(STATIC_CONFIG, [], ts) == PackSize(0) + RoundTrip.Serialise(h, 0, blocks)
    requires n < |RoundTrip.PatchFile(first, |target|, q)|
    ensures var o := Apply(h, RoundTrip.PatchFile(first, |target|, q)[..n]);
      o.result == (if n < 1 + |PackSize(|target|)| then -18 else -19) && o.out <= target
  {
    var toSize, length, file := |target|, 1 + |PackSize(|target|)|, RoundTrip.PatchFile(first, |target|, q);
    RoundTrip.StreamNonEmpty(q, ts, pad);
    RoundTrip.DecodeCompressed(q, ts, pad);
    RoundTrip.PlanDone(h, target, blocks, PackSize(0), RoundTrip.Serialise(h, 0, blocks));
    RoundTrip.HeaderPacked(first, toSize, [0x44] + q);
    FileParts(file, first, PackSize(toSize), q);
    FileEnds(h, file, toSize, length, q, n);
  }

  lemma FileParts(file: seq<byte>, first: byte, pack: seq<byte>, q: seq<byte>)
    requires file == [first] + pack + ([0x44] + q)
    ensures |file| == 2 + |pack| + |q| && file[1 + |pack|] == 0x44 && file[2 + |pack|..] == q
  {
  }
}
