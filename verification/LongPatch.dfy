/** A patch that is read in two pieces: one extra block of 600 bytes, kept as literals
    of nine bits. The first 512 bytes of the file end inside the block's fourth slice. */
module LongPatch {
  import opened Bytes
  import opened HeatshrinkSpec
  import opened Varint
  import opened PatchSpec
  import opened FlashSpec
  import opened PatchSlices
  import opened PatchPlans
  import opened Encoding
  import RoundTrip
  import SamplePatches

  function Stream(t: seq<byte>): seq<byte> {
    PackSize(0) + PackSize(0) + PackSize(|t|) + t + PackSize(0)
  }

  function Data(t: seq<byte>): seq<byte> {
    Packed(EncodeTokens(STATIC_CONFIG, Literals(Stream(t))))
  }

  function File(t: seq<byte>): seq<byte> {
    RoundTrip.PatchFile(4, |t|, Data(t))
  }

  function Plan(t: seq<byte>): seq<RoundTrip.Block> {
    [RoundTrip.Block([], t, 0)]
  }

  lemma Fields()
    ensures PackSize(0) == [0] && PackSize(600) == [152, 9]
  {
    assert PackTail(9) == [9];
  }

  lemma Compressed(t: seq<byte>) returns (pad: seq<bool>)
    requires |t| == 600
    ensures RoundTrip.Compresses(Data(t), Literals(Stream(t)), pad)
    ensures |Stream(t)| == 605 && |Data(t)| == 681 && |File(t)| == 685
    ensures Decode(STATIC_CONFIG, Data(t)) == Stream(t)
  {
    Fields();
    pad := PackedBits(EncodeTokens(STATIC_CONFIG, Literals(Stream(t))));
    ExpandLiterals([], Stream(t));
    RoundTrip.DecodeCompressed(Data(t), Literals(Stream(t)), pad);
    assert [] + Stream(t) == Stream(t);
  }

  lemma Serialised(h: Host, t: seq<byte>)
    requires SeekOk(h, 0)
    ensures RoundTrip.ValidPlan(h, 0, Plan(t)) && RoundTrip.Target(Plan(t)) == t
    ensures PackSize(0) + RoundTrip.Serialise(h, 0, Plan(t)) == Stream(t)
  {
    SamplePatches.LastExtra(h, t);
    SamplePatches.ExtraBlock(h, Plan(t)[0]);
    assert Plan(t)[1..] == [];
    Flat(PackSize(0), PackSize(|t|), t);
  }

  lemma Flat<T>(zero: seq<T>, p: seq<T>, t: seq<T>)
    ensures zero + (zero + (p + t + zero)) == zero + zero + p + t + zero
  {
  }

  // -- where its only chunk ends --------------------------------------------------------

  /** The compressed data of such a file, of which 508 bytes are in the first piece. */
  predicate IsLong(c: Cuts) {
    && c.at == 4 && |c.q| == 681 && c.ends == {512}
    && Decodes(c, 507) == 450 && Decodes(c, 508) == 451 && Decodes(c, 681) == 605
  }

  lemma LongEnds(t: seq<byte>)
    requires |t| == 600
    ensures IsLong(Cuts(Data(t), 4, ChunkedFeed(File(t)).ends))
  {
    var pad := Compressed(t);
    var ends := ChunkedFeed(File(t)).ends;
    assert forall i :: i in ends <==> i == 512;
    DecodeLiterals(Data(t), Stream(t), pad, 507, 450);
    DecodeLiterals(Data(t), Stream(t), pad, 508, 451);
    DecodeLiterals(Data(t), Stream(t), pad, 681, 605);
  }

  lemma LongCut(c: Cuts, from: nat, n: nat)
    requires IsLong(c)
    ensures CutsAfter(c, from, n) <==> from + n == 605 || (from + n == 451 && from <= 450)
  {
    if from + n == 451 && from <= 450 {
      assert 508 + c.at in c.ends;
      assert ChunkCut(c, from, 451);
    }
  }

  /** Behind `from` decompressed bytes a slice of the block ends after r. */
  predicate LongSlice(from: nat, left: nat, r: nat) {
    && from + left == 604 && left > 0
    && r == if from <= 322 || 451 <= from <= 475 then 128 else if from <= 450 then 451 - from else left
  }

  lemma LongSliceIs(c: Cuts, from: nat, left: nat, r: nat, n: nat)
    requires IsLong(c) && LongSlice(from, left, r) && Ends(c, from, left, n)
    ensures n == r
  {
    forall j | 1 <= j <= r ensures CutsAfter(c, from, j) <==> (from + j == 451 && from <= 450) {
      LongCut(c, from, j);
    }
    FirstCutIs(c, from, left, 1, r);
    assert OpenPiece(true);
  }

  /** The slice at the i-th byte of the block. */
  lemma LongPiece(c: Cuts, t: seq<byte>, rest: seq<byte>, from: nat, i: nat, j: nat, to: nat,
                  ws: seq<seq<byte>>)
    returns (more: seq<seq<byte>>)
    requires IsLong(c) && |t| == 600 && i <= j <= 600 && from == 4 + i && to == 4 + j
    requires LongSlice(from, 600 - i, j - i)
    requires rest == t[i..] && IsPieces(c, from, rest, ws)
    ensures ws == [t[i..j]] + more && IsPieces(c, to, t[j..], more)
  {
    var n, first, tail;
    n, first, tail, more := NextSlice(c, from, rest, ws);
    LongSliceIs(c, from, 600 - i, j - i, n);
    assert first == t[i..j] && tail == t[j..];
  }

  lemma LongPieces(c: Cuts, t: seq<byte>, from: nat, ws: seq<seq<byte>>)
    requires IsLong(c) && |t| == 600 && from == 4 && IsPieces(c, from, t, ws)
    ensures ws == [t[..128], t[128..256], t[256..384], t[384..447], t[447..575], t[575..]]
  {
    assert t[0..] == t && t[575..600] == t[575..];
    var a := LongPiece(c, t, t, from, 0, 128, from + 128, ws);
    var b := LongPiece(c, t, t[128..], from + 128, 128, 256, from + 256, a);
    var d := LongPiece(c, t, t[256..], from + 256, 256, 384, from + 384, b);
    var e := LongPiece(c, t, t[384..], from + 384, 384, 447, from + 447, d);
    var f := LongPiece(c, t, t[447..], from + 447, 447, 575, from + 575, e);
    var g := LongPiece(c, t, t[575..], from + 575, 575, 600, from + 600, f);
    NoPiece(c, from + 600, t[600..], g);
    Six(t[0..128], t[128..256], t[256..384], t[384..447], t[447..575], t[575..600]);
  }

  lemma NoPiece(c: Cuts, at: nat, t: seq<byte>, ws: seq<seq<byte>>)
    requires t == [] && IsPieces(c, at, t, ws)
    ensures ws == []
  {
    assert OpenPiece(true);
  }

  lemma Six<T>(a: T, b: T, c: T, d: T, e: T, f: T)
    ensures [a] + ([b] + ([c] + ([d] + ([e] + ([f] + []))))) == [a, b, c, d, e, f]
  {
  }

  /** A plan of one extra block is written as its pieces. */
  lemma OnePlan(c: Cuts, used: nat, t: seq<byte>, at: nat, ws: seq<seq<byte>>)
    requires at == ExtraAt(Plan(t)[0], used) && ws == PlanPieces(c, used, Plan(t))
    ensures IsPieces(c, at, t, ws)
  {
    assert Plan(t)[1..] == [];
    assert [] + Pieces(c, at, t) + [] == Pieces(c, at, t);
  }

  /** The fourth slice ends where the first piece of the file does, after 63 bytes. */
  lemma LongWrites(h: Host, t: seq<byte>)
    requires |t| == 600 && SeekOk(h, 0) && h.room > 600
    ensures |File(t)| == 685 && Apply(h, File(t)) == Outcome(600, t)
    ensures WriteList(h, ChunkedFeed(File(t))) ==
      [t[..128], t[128..256], t[256..384], t[384..447], t[447..575], t[575..]]
  {
    var pad := Compressed(t);
    Serialised(h, t);
    ExpandLiterals([], Stream(t));
    RoundTrip.PatchRoundTrip(h, t, Plan(t), 4, Data(t), Literals(Stream(t)), pad);
    LongEnds(t);
    LongRun(h, t, ChunkedFeed(File(t)), 1, Cuts(Data(t), 4, ChunkedFeed(File(t)).ends));
  }

  lemma LongRun(h: Host, t: seq<byte>, f: Feed, used: nat, c: Cuts)
    requires |t| == 600 && h.room > 600 && f.whole == File(t) && c == Cuts(Data(t), 4, f.ends) && IsLong(c)
    requires RoundTrip.ValidPlan(h, 0, Plan(t)) && RoundTrip.Target(Plan(t)) == t && used == 1
    requires Decode(STATIC_CONFIG, Data(t)) == PackSize(0) + RoundTrip.Serialise(h, 0, Plan(t))
    ensures WriteList(h, f) == [t[..128], t[128..256], t[256..384], t[384..447], t[447..575], t[575..]]
  {
    Fields();
    PlanCut(h, f, t, Plan(t), 4, Data(t), c);
    var ws := PlanPieces(c, used, Plan(t));
    JoinPlan(c, used, Plan(t));
    UpToFits(h.room, ws);
    OnePlan(c, used, t, 4, ws);
    LongPieces(c, t, 4, ws);
  }
}
