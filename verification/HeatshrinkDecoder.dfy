/** The suspendable decoder of heatshrink_decoder.c, updated in place and tied at
    every moment to the abstract machine of HeatshrinkSpec. */
module HeatshrinkDecoding {
  import opened Bytes
  import opened HeatshrinkSpec
  import opened HeatshrinkWindow

  datatype HsdState =
    | StTagBit | StYieldLiteral | StIndexMsb | StIndexLsb | StCountMsb | StCountLsb | StYieldBackref

  datatype SinkRes = SinkOk | SinkFull
  datatype PollRes = PollEmpty | PollMore
  datatype FinishRes = FinishDone | FinishMore

  const NO_BITS: nat := 0xFFFF

  /** Unread bits of the current byte: bit_index has a single bit set, or none. */
  function Width(bitIndex: nat): (k: nat)
    ensures k <= 8
  {
    if bitIndex == 1 then 1 else if bitIndex == 2 then 2 else if bitIndex == 4 then 3
    else if bitIndex == 8 then 4 else if bitIndex == 16 then 5 else if bitIndex == 32 then 6
    else if bitIndex == 64 then 7 else if bitIndex == 128 then 8 else 0
  }

  predicate IsBitIndex(bitIndex: nat) {
    bitIndex == 0 || Width(bitIndex) > 0
  }

  /** The bits of the next byte become the bits of the current byte. */
  lemma LoadedBits(current: byte, next: byte, rest: seq<byte>, unread: seq<bool>)
    requires unread == BitsOf(current)[8..] + Bits([next] + rest)
    ensures unread == BitsOf(next)[0..] + Bits(rest)
  {
    BitsConcat([next], rest);
    assert Bits([next]) == BitsOf(next) + Bits([]);
  }

  lemma QueueGrows(held: seq<bool>, queued: seq<byte>, data: seq<byte>, unread: seq<bool>)
    requires unread == held + Bits(queued)
    ensures unread + Bits(data) == held + Bits(queued + data)
  {
    BitsConcat(queued, data);
    Assoc(held, Bits(queued), Bits(data));
  }

  lemma WidthOrder(bitIndex: nat, count: nat)
    requires IsBitIndex(bitIndex) && count >= 1
    ensures bitIndex < Pow2(count - 1) <==> Width(bitIndex) < count
  {
    assert Pow2(7) == 128;
    if count > 8 { Pow2Mono(8, count - 1); }
  }

  lemma WidthPower(bitIndex: nat)
    requires IsBitIndex(bitIndex) && bitIndex > 0
    ensures bitIndex == Pow2(Width(bitIndex) - 1)
    ensures IsBitIndex(bitIndex / 2) && Width(bitIndex / 2) == Width(bitIndex) - 1
  {
    assert Pow2(7) == 128;
  }

  function PhaseOf(st: HsdState, index: nat, count: nat): Phase {
    match st
    case StTagBit => TagBit
    case StYieldLiteral => YieldLiteral
    case StIndexMsb => IndexMsb
    case StIndexLsb => IndexLsb(index)
    case StCountMsb => CountMsb(index)
    case StCountLsb => CountLsb(index, count)
    case StYieldBackref => YieldBackref(index, count)
  }

  /** The machine after one step, or as it was when a field is incomplete. */
  function Step(c: Config, d: Dec): Dec
    requires ValidConfig(c) && WfPhase(c, d.phase)
  {
    match Advance(c, d)
    case None => d
    case Some(e) => e
  }

  lemma SinkSettles(c: Config, d: Dec, sunk: seq<byte>, data: seq<byte>)
    requires ValidConfig(c) && WfPhase(c, d.phase)
    requires Settle(c, d) == Settle(c, Start(Bits(sunk)))
    ensures Settle(c, Feed(d, Bits(data))) == Settle(c, Start(Bits(sunk + data)))
  {
    SettleFeed(c, d, Bits(data));
    BitsConcat(sunk, data);
    SettleFeed(c, Start(Bits(sunk)), Bits(data));
  }

  function Tag(p: Phase): HsdState {
    match p
    case TagBit => StTagBit
    case YieldLiteral => StYieldLiteral
    case IndexMsb => StIndexMsb
    case IndexLsb(_) => StIndexLsb
    case CountMsb(_) => StCountMsb
    case CountLsb(_, _) => StCountLsb
    case YieldBackref(_, _) => StYieldBackref
  }

  /** Bits left after a step of a phase with n bits to read. */
  function StepLeft(c: Config, p: Phase, n: nat): nat {
    if n >= Need(c, p) then n - Need(c, p) else n
  }

  /** One turn of the polling loop with room for `room` bytes: the output is part
      of what was coming anyway, and the turn either gets closer to the end of
      input and pending copy, or finds the machine stalled. */
  ghost predicate Turned(c: Config, before: Dec, after: Dec, room: nat, got: seq<byte>)
    requires ValidConfig(c) && WfPhase(c, before.phase)
  {
    && WfPhase(c, after.phase)
    && Settle(c, after) == Settle(c, before)
    && |got| <= room && after.hist == before.hist + got
    && |after.bits| <= |before.bits|
    && (room > 0 ==> |after.bits| <= StepLeft(c, before.phase, |before.bits|))
    && (if Tag(after.phase) == Tag(before.phase) then Stalled(c, after, |got| == room)
        else |after.bits| < |before.bits| || Owed(after.phase) < Owed(before.phase))
  }

  ghost predicate Stalled(c: Config, d: Dec, full: bool)
    requires ValidConfig(c) && WfPhase(c, d.phase)
  {
    Advance(c, d).None? || (full && (d.phase.YieldBackref? || d.phase.YieldLiteral?))
  }

  /** What the loop needs of a turn, in the terms of the state variable. */
  lemma TurnEnds(c: Config, before: Dec, after: Dec, room: nat, got: seq<byte>,
                 st: HsdState, i: nat, n: nat, st': HsdState, i': nat, n': nat)
    requires ValidConfig(c) && WfPhase(c, before.phase) && Turned(c, before, after, room, got)
    requires before.phase == PhaseOf(st, i, n) && after.phase == PhaseOf(st', i', n')
    ensures st == st' ==> Stalled(c, after, |got| == room)
    ensures st != st' ==>
      |after.bits| < |before.bits| || (|after.bits| == |before.bits| && Owed(after.phase) < Owed(before.phase))
  {
  }

  lemma StepTurn(c: Config, before: Dec, after: Dec, room: nat, got: seq<byte>)
    requires ValidConfig(c) && WfPhase(c, before.phase) && !before.phase.YieldBackref?
    requires after == Step(c, before) && |got| <= room && after.hist == before.hist + got
    ensures Turned(c, before, after, room, got)
  {
  }

  lemma FieldTurn(c: Config, before: Dec, after: Dec, room: nat)
    requires ValidConfig(c) && WfPhase(c, before.phase) && !before.phase.YieldBackref? && !before.phase.YieldLiteral?
    requires after == Step(c, before)
    ensures Turned(c, before, after, room, [])
  {
    assert before.hist + [] == before.hist;
    StepTurn(c, before, after, room, []);
  }

  lemma FullTurn(c: Config, before: Dec)
    requires ValidConfig(c) && WfPhase(c, before.phase) && before.phase.YieldLiteral?
    ensures Turned(c, before, before, 0, [])
  {
  }

  lemma BackrefTurn(c: Config, before: Dec, after: Dec, room: nat, got: seq<byte>)
    requires ValidConfig(c) && WfPhase(c, before.phase) && before.phase.YieldBackref?
    requires WfPhase(c, after.phase) && Settle(c, after) == Settle(c, before)
    requires |got| <= room && after.hist == before.hist + got && after.bits == before.bits
    requires after.phase.TagBit? || (after.phase.YieldBackref? && |got| == room)
    ensures Turned(c, before, after, room, got)
  {
  }

  /** What reading `count` bits off a bit string gives: all of them or none. */
  ghost predicate Reads(count: nat, before: seq<bool>, r: nat, taken: seq<bool>, rest: seq<bool>) {
    && before == taken + rest
    && (if |before| < count then r == NO_BITS && taken == []
        else r == Value(taken) && r < 256 && |taken| == count)
  }

  /** A successful read of the field a phase needs is the machine's step. */
  lemma ReadStep(c: Config, d: Dec, r: nat, taken: seq<bool>, rest: seq<bool>)
    requires ValidConfig(c) && WfPhase(c, d.phase) && !d.phase.YieldBackref?
    requires Reads(Need(c, d.phase), d.bits, r, taken, rest)
    ensures r == NO_BITS ==> Step(c, d) == d && rest == d.bits
    ensures r != NO_BITS ==>
      && r < Pow2(Need(c, d.phase))
      && Step(c, d) == Dec(Next(c, d.phase, r), rest, if d.phase.YieldLiteral? then d.hist + [r] else d.hist)
  {
    if |d.bits| >= Need(c, d.phase) {
      ValueBound(taken);
      assert d.bits[..|taken|] == taken && d.bits[|taken|..] == rest;
    }
  }

  lemma LiteralTurn(c: Config, before: Dec, after: Dec, v: nat, taken: seq<bool>, room: nat, got: seq<byte>)
    requires ValidConfig(c) && before.phase.YieldLiteral? && after.hist == before.hist + got
    requires room == 0 ==> after.phase.YieldLiteral? && after.bits == before.bits && got == []
    requires room > 0 ==>
      && Reads(8, before.bits, v, taken, after.bits)
      && (if v == NO_BITS then after.phase.YieldLiteral? && got == [] else after.phase.TagBit? && got == [v])
    ensures Turned(c, before, after, room, got)
  {
    if room > 0 {
      ReadStep(c, before, v, taken, after.bits);
      assert after == Step(c, before);
      StepTurn(c, before, after, room, got);
    } else {
      assert after == before;
      FullTurn(c, before);
    }
  }

  /** `field |= bits`: the phase keeps the low bits of the field clear. */
  method OrField(field: nat, bits: nat) returns (r: nat)
    requires field % 256 == 0 && bits < 256
    ensures r == field + bits
  {
    assert Pow2(8) == 256;
    OrIsAdd(field, bits, 8);
    r := BitOr(field, bits);
  }

  lemma IndexRead(c: Config, p: Phase, v: nat, st: HsdState, distance: nat)
    requires p.IndexLsb? && distance == p.index + v + 1
    requires st == if c.l > 8 then StCountMsb else StCountLsb
    ensures PhaseOf(st, distance, 0) == Next(c, p, v)
  {
  }

  lemma CountRead(c: Config, p: Phase, v: nat, count: nat)
    requires p.CountLsb? && count == p.count + v + 1
    ensures PhaseOf(StYieldBackref, p.distance, count) == Next(c, p, v)
  {
  }

  lemma CopyNext(hist: seq<byte>, distance: nat, i: nat, got: seq<byte>, b: byte)
    requires 1 <= distance && hist + got == Copy(hist, distance, i) && b == Back(hist + got, distance)
    ensures hist + got + [b] == hist + (got + [b]) == Copy(hist, distance, i + 1)
  {
    CopyAdd(hist, distance, i, 1);
    Assoc(hist, got, [b]);
  }

  /** Copying part of a back-reference now and the rest later is copying it. */
  lemma CopySettles(c: Config, before: Dec, after: Dec, distance: nat, total: nat, count: nat)
    requires ValidConfig(c) && before.phase == YieldBackref(distance, total) && WfPhase(c, before.phase)
    requires count <= total
    requires after == Dec(LeftToCopy(distance, total - count), before.bits, Copy(before.hist, distance, count))
    ensures WfPhase(c, after.phase) && Settle(c, after) == Settle(c, before)
  {
    if count < total {
      RestSettles(c, before, after, distance, total, count, Copy(before.hist, distance, total));
    } else {
      SettleCopy(c, distance, total, before.bits, before.hist, after.hist);
    }
  }

  lemma RestSettles(c: Config, before: Dec, after: Dec, distance: nat, total: nat, count: nat, full: seq<byte>)
    requires ValidConfig(c) && WfPhase(c, YieldBackref(distance, total)) && count < total
    requires before.phase == YieldBackref(distance, total) && full == Copy(before.hist, distance, total)
    requires after == Dec(YieldBackref(distance, total - count), before.bits, Copy(before.hist, distance, count))
    ensures WfPhase(c, after.phase) && Settle(c, after) == Settle(c, before)
  {
    CopyAdd(before.hist, distance, count, total - count);
    SettleCopy(c, distance, total, before.bits, before.hist, full);
    SettleCopy(c, distance, total - count, before.bits, after.hist, full);
  }

  function LeftToCopy(distance: nat, left: nat): Phase {
    if left > 0 then YieldBackref(distance, left) else TagBit
  }

  predicate OpenDecoder(u: bool) {
    true
  }

  lemma FeedByte(c: Config, d: Dec, eight: seq<bool>)
    requires ValidConfig(c) && WfPhase(c, d.phase) && Stalled(c, d, true) && !d.phase.YieldBackref?
    requires |d.bits| < 8 && |eight| == 8
    ensures StepLeft(c, d.phase, |Feed(d, eight).bits|) < 8
  {
    NextWf(c, d.phase, 0);
  }

  /** The bytes of the struct, as a dump stores them. */
  datatype DecoderImage = DecoderImage(inputSize: nat, inputIndex: nat, outputCount: nat, outputIndex: nat,
                                       headIndex: nat, state: HsdState, currentByte: byte, bitIndex: nat,
                                       buffers: seq<byte>)

  class HeatshrinkDecoder {
    const config: Config
    const inputBufferSize: nat
    var inputSize: nat
    var inputIndex: nat
    var outputCount: nat
    var outputIndex: nat
    var headIndex: nat
    var state: HsdState
    var currentByte: byte
    var bitIndex: nat
    const buffers: array<byte>      // input buffer, then expansion window

    ghost var hist: seq<byte>       // every byte output since the reset
    ghost var sunk: seq<byte>       // every byte accepted since the reset
    ghost var unread: seq<bool>     // the bits accepted and not yet read
    ghost var decoded: seq<byte>    // what the accepted bytes decode to
    ghost var behind: nat           // how many bytes they decoded to before the last one

    ghost predicate InputOk()
      reads this`inputSize, this`inputIndex, this`bitIndex, this`currentByte, this`unread, buffers
    {
      && ValidConfig(config)
      && buffers.Length == inputBufferSize + Pow2(config.w)
      && inputSize <= inputBufferSize
      && (inputIndex < inputSize || inputIndex == inputSize == 0)
      && IsBitIndex(bitIndex)
      && unread == Held() + Bits(buffers[inputIndex..inputSize])
    }

    /** The unread bits of the current byte. */
    ghost function Held(): seq<bool>
      reads this`bitIndex, this`currentByte, this`unread
    {
      BitsOf(currentByte)[8 - Width(bitIndex)..]
    }

    ghost function Abs(st: HsdState): Dec
      reads this`outputIndex, this`outputCount, this`unread, this`hist
    {
      Dec(PhaseOf(st, outputIndex, outputCount), unread, hist)
    }

    ghost function Window(): seq<byte>
      requires buffers.Length == inputBufferSize + Pow2(config.w)
      reads buffers
    {
      buffers[inputBufferSize..]
    }

    ghost predicate WindowOk()
      requires buffers.Length == inputBufferSize + Pow2(config.w)
      reads this`headIndex, this`hist, buffers
    {
      && headIndex == |hist| % 0x1_0000
      && Mirrors(config, Window(), hist)
    }

    ghost predicate Valid()
      reads this`inputSize, this`inputIndex, this`outputCount, this`outputIndex, this`headIndex, this`state
      reads this`currentByte, this`bitIndex, this`hist, this`sunk, this`unread, buffers
    {
      && InputOk()
      && WindowOk()
      && WfPhase(config, Abs(state).phase)
      && Settle(config, Abs(state)) == Settle(config, Start(Bits(sunk)))
    }

    constructor (config: Config, inputBufferSize: nat)
      requires ValidConfig(config)
      ensures Valid() && fresh(buffers)
      ensures this.config == config && this.inputBufferSize == inputBufferSize
      ensures hist == [] && sunk == [] && unread == [] && state == StTagBit && decoded == []
    {
      this.config := config;
      this.inputBufferSize := inputBufferSize;
      buffers := new byte[inputBufferSize + Pow2(config.w)](_ => 0);
      new;
      Reset();
    }

    method Reset()
      requires ValidConfig(config) && buffers.Length == inputBufferSize + Pow2(config.w)
      modifies this, buffers
      ensures Valid()
      ensures hist == [] && sunk == [] && unread == [] && state == StTagBit && decoded == []
    {
      ClearBuffers();
      state := StTagBit;
      inputSize, inputIndex := 0, 0;
      bitIndex, currentByte := 0, 0;
      outputCount, outputIndex, headIndex := 0, 0, 0;
      hist, sunk, unread, decoded := [], [], [], [];
      NoneHeld(currentByte, buffers[inputIndex..inputSize]);
      MirrorsClear(config, Window());
      assert Bits(sunk) == unread;
      assert Abs(state) == Start(Bits(sunk));
    }

    /** memset */
    method ClearBuffers()
      modifies buffers
      ensures forall i :: 0 <= i < buffers.Length ==> buffers[i] == 0
    {
      forall i | 0 <= i < buffers.Length { buffers[i] := 0; }
    }

    method Sink(data: seq<byte>) returns (res: SinkRes, accepted: nat)
      requires Valid()
      modifies this, buffers
      ensures Valid() && hist == old(hist) && state == old(state)
      ensures decoded == old(decoded)
      ensures var room := inputBufferSize - old(inputSize);
              && accepted == (if room < |data| then room else |data|)
              && res == (if room == 0 then SinkFull else SinkOk)
      ensures sunk == old(sunk) + data[..accepted]
      ensures Abs(state) == Feed(old(Abs(state)), Bits(data[..accepted]))
    {
      var room := inputBufferSize - inputSize;
      if room == 0 {
        assert data[..0] == [];
        return SinkFull, 0;
      }
      accepted := if room < |data| then room else |data|;
      res := SinkOk;
      Store(data[..accepted]);
      SinkSettles(config, old(Abs(state)), old(sunk), data[..accepted]);
    }

    /** memcpy to the end of the input buffer. */
    method Store(data: seq<byte>)
      requires InputOk() && WindowOk() && |data| <= inputBufferSize - inputSize
      modifies this`inputSize, this`sunk, this`unread, buffers
      ensures InputOk() && WindowOk()
      ensures sunk == old(sunk) + data && unread == old(unread) + Bits(data)
    {
      QueueGrows(Held(), buffers[inputIndex..inputSize], data, unread);
      CopyIn(data);
      inputSize := inputSize + |data|;
      sunk, unread := sunk + data, unread + Bits(data);
    }

    method CopyIn(data: seq<byte>)
      requires buffers.Length == inputBufferSize + Pow2(config.w)
      requires inputIndex <= inputSize && inputSize + |data| <= inputBufferSize
      modifies buffers
      ensures buffers[inputIndex..inputSize + |data|] == old(buffers[inputIndex..inputSize]) + data
      ensures Window() == old(Window())
    {
      forall i | 0 <= i < |data| { buffers[inputSize + i] := data[i]; }
    }

    /** All or nothing, unless more than 8 bits are asked for: then bits short of
        `count` are consumed and lost when the input buffer was not empty. */
    method GetBits(count: nat) returns (r: nat, ghost taken: seq<bool>)
      requires InputOk() && count >= 1
      modifies this`inputIndex, this`inputSize, this`bitIndex, this`currentByte, this`unread
      ensures InputOk()
      ensures old(unread) == taken + unread
      ensures count <= 8 ==> Reads(count, old(unread), r, taken, unread)
      ensures count <= 15 && count <= |old(unread)| ==> |taken| == count && r == Value(taken)
      ensures count > 15 || count > |old(unread)| ==> r == NO_BITS
      ensures count > 15 || (count > |old(unread)| && old(inputSize) == 0) ==> unchanged(this)
      ensures count <= 15 && count > |old(unread)| && old(inputSize) > 0 ==> count > 8 && unread == []
    {
      taken := [];
      if count > 15 {
        return NO_BITS, [];
      }
      WidthOrder(bitIndex, count);
      if inputSize == 0 {
        assert unread == Held();
        if bitIndex < Pow2(count - 1) {
          return NO_BITS, [];
        }
      }
      r, taken := PopBits(count);
      if count <= 8 && count <= |old(unread)| {
        ByteValue(taken);
      }
    }

    /** The loop of get_bits. */
    method PopBits(count: nat) returns (r: nat, ghost taken: seq<bool>)
      requires InputOk()
      modifies this`inputIndex, this`inputSize, this`bitIndex, this`currentByte, this`unread
      ensures InputOk()
      ensures old(unread) == taken + unread
      ensures count <= |old(unread)| ==> |taken| == count && r == Value(taken)
      ensures count > |old(unread)| ==> r == NO_BITS && unread == []
    {
      r, taken := 0, [];
      for i := 0 to count
        invariant InputOk()
        invariant |taken| == i && r == Value(taken) && old(unread) == taken + unread
      {
        if bitIndex == 0 {
          if inputSize == 0 {
            return NO_BITS, taken;
          }
          PullByte();
        }
        ghost var before := unread;
        var bit := TakeBit();
        Assoc(taken, [bit], unread);
        taken := taken + [bit];
        assert taken[..i] == taken[..|taken| - 1];
        r := r * 2;
        if bit {
          r := r + 1;
        }
      }
    }

    /** Test the bit under the cursor and move on. */
    method TakeBit() returns (bit: bool)
      requires InputOk() && bitIndex > 0
      modifies this`bitIndex, this`unread
      ensures InputOk() && Width(bitIndex) == old(Width(bitIndex)) - 1
      ensures old(unread) == [bit] + unread
    {
      ghost var all, k := BitsOf(currentByte), 8 - Width(bitIndex);
      assert all[k..] == [all[k]] + all[k + 1..];
      BinaryAt(currentByte, 8, Width(bitIndex) - 1);
      WidthPower(bitIndex);
      bit := currentByte / bitIndex % 2 == 1;
      bitIndex := bitIndex / 2;
      unread := unread[1..];
      Assoc([bit], Held(), Bits(buffers[inputIndex..inputSize]));
    }

    /** The loading half of get_bits. */
    method PullByte()
      requires InputOk() && bitIndex == 0 && inputSize > 0
      modifies this`inputIndex, this`inputSize, this`bitIndex, this`currentByte, this`unread
      ensures InputOk() && bitIndex == 128 && unread == old(unread)
    {
      ghost var rest := LoadByte();
      LoadedBits(old(currentByte), currentByte, rest, unread);
    }

    method LoadByte() returns (ghost rest: seq<byte>)
      requires inputIndex < inputSize <= buffers.Length
      modifies this`inputIndex, this`inputSize, this`bitIndex, this`currentByte
      ensures bitIndex == 128 && old(buffers[inputIndex..inputSize]) == [currentByte] + rest
      ensures inputSize <= old(inputSize) && (inputIndex < inputSize || inputIndex == inputSize == 0)
      ensures buffers[inputIndex..inputSize] == rest
    {
      rest := buffers[inputIndex + 1..inputSize];
      HeadTail(buffers[inputIndex..inputSize], buffers[inputIndex], rest);
      currentByte := buffers[inputIndex];
      inputIndex := inputIndex + 1;
      if inputIndex == inputSize {
        inputIndex := 0;
        inputSize := 0;
      }
      bitIndex := 128;
    }

    /** The field the phase needs was read as v, or is still incomplete. */
    ghost predicate Moved(before: Dec, v: nat, taken: seq<bool>, after: Dec) {
      && !before.phase.YieldBackref? && !before.phase.YieldLiteral?
      && Reads(Need(config, before.phase), before.bits, v, taken, after.bits)
      && after.phase == (if v == NO_BITS then before.phase else Next(config, before.phase, v))
      && after.hist == before.hist
    }

    // -- the states of the polling machine --------------------------------------

    method TagBitStep() returns (st: HsdState, ghost v: nat, ghost taken: seq<bool>)
      requires InputOk() && state == StTagBit && WfPhase(config, Abs(state).phase)
      modifies this`inputIndex, this`inputSize, this`bitIndex, this`currentByte, this`unread, this`outputIndex
      ensures InputOk() && Moved(old(Abs(state)), v, taken, Abs(st))
    {
      var bits;
      bits, taken := GetBits(1);
      v := bits;
      if bits == NO_BITS {
        return StTagBit, v, taken;
      } else if bits != 0 {
        return StYieldLiteral, v, taken;
      } else if config.w > 8 {
        return StIndexMsb, v, taken;
      } else {
        outputIndex := 0;
        return StIndexLsb, v, taken;
      }
    }

    method YieldLiteralStep(room: nat) returns (st: HsdState, v: nat, ghost taken: seq<bool>, got: seq<byte>)
      requires InputOk() && WindowOk() && state == StYieldLiteral
      modifies this`inputIndex, this`inputSize, this`bitIndex, this`currentByte, this`unread, this`headIndex
      modifies this`hist, buffers
      ensures InputOk() && WindowOk() && hist == old(hist) + got
      ensures room == 0 ==> st == StYieldLiteral && unread == old(unread) && got == []
      ensures room > 0 ==>
        && Reads(8, old(unread), v, taken, unread)
        && (if v == NO_BITS then st == StYieldLiteral && got == [] else st == StTagBit && got == [v])
    {
      got := [];
      st := StYieldLiteral;
      v, taken := NO_BITS, [];
      if room > 0 {
        v, taken := GetBits(8);
        if v == NO_BITS {
          return;
        }
        got := OutputLiteral(v);
        st := StTagBit;
      }
    }

    method OutputLiteral(v: nat) returns (got: seq<byte>)
      requires InputOk() && WindowOk() && v < 256
      modifies this`headIndex, this`hist, buffers
      ensures InputOk() && WindowOk() && unread == old(unread) && hist == old(hist) + got && got == [v]
    {
      PushToWindow(v);
      got := [v];
    }

    /** buf[head_index++ & mask] = c */
    method PushToWindow(b: byte)
      requires InputOk() && WindowOk()
      modifies this`headIndex, this`hist, buffers
      ensures InputOk() && WindowOk() && unread == old(unread) && hist == old(hist) + [b]
    {
      var slot := headIndex % Pow2(config.w);
      WindowStep(config, Window(), headIndex, slot, hist, b);
      WriteSlot(slot, b);
      headIndex := (headIndex + 1) % 0x1_0000;
      hist := hist + [b];
    }

    method WriteSlot(slot: nat, b: byte)
      requires buffers.Length == inputBufferSize + Pow2(config.w) && slot < Pow2(config.w)
      requires inputIndex <= inputSize <= inputBufferSize
      modifies buffers
      ensures Window() == old(Window())[slot := b]
      ensures buffers[inputIndex..inputSize] == old(buffers[inputIndex..inputSize])
    {
      buffers[inputBufferSize + slot] := b;
    }

    method IndexMsbStep() returns (st: HsdState, ghost v: nat, ghost taken: seq<bool>)
      requires InputOk() && state == StIndexMsb && WfPhase(config, Abs(state).phase)
      modifies this`inputIndex, this`inputSize, this`bitIndex, this`currentByte, this`unread, this`outputIndex
      ensures InputOk() && Moved(old(Abs(state)), v, taken, Abs(st))
    {
      var bits;
      bits, taken := GetBits(config.w - 8);
      v := bits;
      if bits == NO_BITS {
        return StIndexMsb, v, taken;
      }
      outputIndex := bits * 256;
      return StIndexLsb, v, taken;
    }

    method IndexLsbStep() returns (st: HsdState, ghost v: nat, ghost taken: seq<bool>)
      requires InputOk() && state == StIndexLsb && WfPhase(config, Abs(state).phase)
      modifies this`inputIndex, this`inputSize, this`bitIndex, this`currentByte, this`unread, this`outputIndex
      modifies this`outputCount
      ensures InputOk() && Moved(old(Abs(state)), v, taken, Abs(st))
    {
      var bits;
      bits, taken := GetBits(if config.w < 8 then config.w else 8);
      v := bits;
      if bits == NO_BITS {
        return StIndexLsb, v, taken;
      }
      st := StoreIndex(bits);
      IndexRead(config, old(Abs(state)).phase, v, st, outputIndex);
    }

    method StoreIndex(bits: nat) returns (st: HsdState)
      requires outputIndex % 256 == 0 && bits < 256
      modifies this`outputIndex, this`outputCount
      ensures outputIndex == old(outputIndex) + bits + 1 && outputCount == 0
      ensures st == if config.l > 8 then StCountMsb else StCountLsb
    {
      var index := OrField(outputIndex, bits);
      outputIndex, outputCount := index + 1, 0;
      st := if config.l > 8 then StCountMsb else StCountLsb;
    }

    method CountMsbStep() returns (st: HsdState, ghost v: nat, ghost taken: seq<bool>)
      requires InputOk() && state == StCountMsb && WfPhase(config, Abs(state).phase)
      modifies this`inputIndex, this`inputSize, this`bitIndex, this`currentByte, this`unread, this`outputCount
      ensures InputOk() && Moved(old(Abs(state)), v, taken, Abs(st))
    {
      var bits;
      bits, taken := GetBits(config.l - 8);
      v := bits;
      if bits == NO_BITS {
        return StCountMsb, v, taken;
      }
      outputCount := bits * 256;
      return StCountLsb, v, taken;
    }

    method CountLsbStep() returns (st: HsdState, ghost v: nat, ghost taken: seq<bool>)
      requires InputOk() && state == StCountLsb && WfPhase(config, Abs(state).phase)
      modifies this`inputIndex, this`inputSize, this`bitIndex, this`currentByte, this`unread, this`outputCount
      ensures InputOk() && Moved(old(Abs(state)), v, taken, Abs(st))
    {
      var bits;
      bits, taken := GetBits(if config.l < 8 then config.l else 8);
      v := bits;
      if bits == NO_BITS {
        return StCountLsb, v, taken;
      }
      StoreCount(bits);
      st := StYieldBackref;
      CountRead(config, old(Abs(state)).phase, v, outputCount);
    }

    method StoreCount(bits: nat)
      requires outputCount % 256 == 0 && bits < 256
      modifies this`outputCount
      ensures outputCount == old(outputCount) + bits + 1
    {
      var count := OrField(outputCount, bits);
      outputCount := count + 1;
    }

    /** Copy as much of the pending back-reference as there is room for. */
    method YieldBackrefStep(room: nat) returns (st: HsdState, got: seq<byte>)
      requires InputOk() && WindowOk() && state == StYieldBackref && WfPhase(config, Abs(state).phase)
      modifies this`headIndex, this`hist, this`outputCount, buffers
      ensures InputOk() && WindowOk() && |got| <= room && hist == old(hist) + got
      ensures unread == old(unread)
      ensures st == StTagBit || (st == StYieldBackref && |got| == room)
      ensures WfPhase(config, Abs(st).phase)
      ensures Settle(config, Abs(st)) == Settle(config, old(Abs(state)))
    {
      var count := room;
      got := [];
      st := StYieldBackref;
      if count > 0 {
        if outputCount < count {
          count := outputCount;
        }
        st, got := CopyPending(count);
      }
    }

    method CopyPending(count: nat) returns (st: HsdState, got: seq<byte>)
      requires InputOk() && WindowOk() && state == StYieldBackref && WfPhase(config, Abs(state).phase)
      requires 1 <= count <= outputCount
      modifies this`headIndex, this`hist, this`outputCount, buffers
      ensures InputOk() && WindowOk() && |got| == count && hist == old(hist) + got && unread == old(unread)
      ensures st == if old(outputCount) == count then StTagBit else StYieldBackref
      ensures WfPhase(config, Abs(st).phase) && Settle(config, Abs(st)) == Settle(config, old(Abs(state)))
    {
      ghost var before, total := Abs(state), outputCount;
      got := CopyBack(count);
      st := CountDown(count);
      CopySettles(config, before, Abs(st), outputIndex, total, count);
    }

    method CountDown(count: nat) returns (st: HsdState)
      requires count <= outputCount && InputOk() && WindowOk()
      modifies this`outputCount
      ensures InputOk() && WindowOk() && outputCount == old(outputCount) - count
      ensures st == if outputCount == 0 then StTagBit else StYieldBackref
    {
      outputCount := outputCount - count;
      st := if outputCount == 0 then StTagBit else StYieldBackref;
    }

    /** The copying loop: a repetition may include itself. */
    method CopyBack(count: nat) returns (got: seq<byte>)
      requires InputOk() && WindowOk() && 1 <= outputIndex <= Pow2(config.w)
      modifies this`headIndex, this`hist, buffers
      ensures InputOk() && WindowOk() && unread == old(unread)
      ensures |got| == count && hist == old(hist) + got == Copy(old(hist), outputIndex, count)
    {
      got := [];
      for i := 0 to count
        invariant InputOk() && WindowOk() && unread == old(unread)
        invariant |got| == i && hist == old(hist) + got == Copy(old(hist), outputIndex, i)
      {
        var b := CopyOne();
        CopyNext(old(hist), outputIndex, i, got, b);
        got := got + [b];
      }
    }

    method CopyOne() returns (b: byte)
      requires InputOk() && WindowOk() && 1 <= outputIndex <= Pow2(config.w)
      modifies this`headIndex, this`hist, buffers
      ensures InputOk() && WindowOk() && unread == old(unread)
      ensures b == Back(old(hist), outputIndex) && hist == old(hist) + [b]
    {
      b := ReadWindow();
      PushToWindow(b);
    }

    /** buf[(head_index - neg_offset) & mask] */
    method ReadWindow() returns (b: byte)
      requires InputOk() && WindowOk() && 1 <= outputIndex <= Pow2(config.w)
      ensures b == Back(hist, outputIndex)
    {
      HeadSlot(config, headIndex, |hist|, outputIndex);
      b := buffers[inputBufferSize + (headIndex - outputIndex) % Pow2(config.w)];
      assert b == Window()[Slot(config, |hist| - outputIndex)];
    }

    /** Run the machine until it needs input, or output room. */
    method Poll(room: nat) returns (res: PollRes, out: seq<byte>)
      requires Valid()
      modifies this, buffers
      ensures Valid() && sunk == old(sunk) && decoded == old(decoded) && behind == old(behind)
      ensures |out| <= room && hist == old(hist) + out
      ensures res == if |out| == room then PollMore else PollEmpty
      ensures Stalled(config, Abs(state), |out| == room)
      ensures |unread| <= |old(unread)|
      ensures room > 0 ==> |unread| <= old(StepLeft(config, Abs(state).phase, |unread|))
    {
      out := [];
      ghost var goal, first := Settle(config, Start(Bits(sunk))), StepLeft(config, Abs(state).phase, |unread|);
      while true
        invariant InputOk() && WindowOk() && WfPhase(config, Abs(state).phase)
        invariant Settle(config, Abs(state)) == goal
        invariant sunk == old(sunk) && decoded == old(decoded) && behind == old(behind)
        invariant |out| <= room && hist == old(hist) + out
        invariant |unread| <= |old(unread)|
        invariant room > 0 ==> |unread| <= first || (out == [] && first == StepLeft(config, Abs(state).phase, |unread|))
        decreases |unread|, Owed(Abs(state).phase)
      {
        var inState := state;
        var got := PollOnce(room - |out|);
        Assoc(old(hist), out, got);
        out := out + got;
        if state == inState {
          return if |out| == room then PollMore else PollEmpty, out;
        }
      }
    }

    /** Under any interleaving of sinks and polls, the output is a prefix of what the
        accepted bytes decode to, and all of it once a poll stops with room left. */
    lemma AnySchedule()
      requires Valid()
      ensures hist <= Decode(config, sunk)
      ensures Stalled(config, Abs(state), false) ==> hist == Decode(config, sunk)
    {
      var settled := Settle(config, Abs(state));
      assert settled.hist == Decode(config, sunk);
      assert Abs(state).hist == hist;
    }

    /** One turn of the polling loop. */
    method PollOnce(room: nat) returns (got: seq<byte>)
      requires InputOk() && WindowOk() && WfPhase(config, Abs(state).phase)
      modifies this, buffers
      ensures sunk == old(sunk) && decoded == old(decoded) && behind == old(behind)
      ensures InputOk() && WindowOk() && WfPhase(config, Abs(state).phase)
      ensures Settle(config, Abs(state)) == old(Settle(config, Abs(state)))
      ensures |got| <= room && hist == old(hist) + got
      ensures |unread| <= |old(unread)|
      ensures room > 0 ==> |unread| <= old(StepLeft(config, Abs(state).phase, |unread|))
      ensures state == old(state) ==> Stalled(config, Abs(state), |got| == room)
      ensures state != old(state) ==>
        |unread| < |old(unread)| || (|unread| == |old(unread)| && Owed(Abs(state).phase) < old(Owed(Abs(state).phase)))
    {
      ghost var before, st, i, n := Abs(state), state, outputIndex, outputCount;
      if state == StYieldBackref {
        got := BackrefOnce(room);
      } else if state == StYieldLiteral {
        got := LiteralOnce(room);
      } else {
        got := FieldOnce(room);
      }
      TurnEnds(config, before, Abs(state), room, got, st, i, n, state, outputIndex, outputCount);
    }

    method BackrefOnce(room: nat) returns (got: seq<byte>)
      requires InputOk() && WindowOk() && WfPhase(config, Abs(state).phase) && state == StYieldBackref
      modifies this`inputSize, this`inputIndex, this`bitIndex, this`currentByte, this`unread, this`state
      modifies this`outputIndex, this`outputCount, this`headIndex, this`hist, buffers
      ensures InputOk() && WindowOk()
      ensures Turned(config, old(Abs(state)), Abs(state), room, got)
    {
      ghost var before := Abs(state);
      var st;
      st, got := YieldBackrefStep(room);
      ghost var after := Abs(st);
      BackrefTurn(config, before, after, room, got);
      state := st;
      assert Abs(state) == after;
    }

    method LiteralOnce(room: nat) returns (got: seq<byte>)
      requires InputOk() && WindowOk() && WfPhase(config, Abs(state).phase) && state == StYieldLiteral
      modifies this`inputSize, this`inputIndex, this`bitIndex, this`currentByte, this`unread, this`state
      modifies this`outputIndex, this`outputCount, this`headIndex, this`hist, buffers
      ensures InputOk() && WindowOk()
      ensures Turned(config, old(Abs(state)), Abs(state), room, got)
    {
      ghost var before := Abs(state);
      var st;
      ghost var v, taken;
      st, v, taken, got := YieldLiteralStep(room);
      ghost var after := Abs(st);
      LiteralTurn(config, before, after, v, taken, room, got);
      state := st;
      assert Abs(state) == after;
    }

    method FieldOnce(room: nat) returns (got: seq<byte>)
      requires InputOk() && WindowOk() && WfPhase(config, Abs(state).phase)
      requires state != StYieldBackref && state != StYieldLiteral
      modifies this`inputSize, this`inputIndex, this`bitIndex, this`currentByte, this`unread, this`state
      modifies this`outputIndex, this`outputCount, this`headIndex, this`hist, buffers
      ensures InputOk() && WindowOk()
      ensures Turned(config, old(Abs(state)), Abs(state), room, got)
    {
      got := [];
      ghost var before := Abs(state);
      var st := FieldStep();
      ghost var after := Abs(st);
      FieldTurn(config, before, after, room);
      state := st;
      assert Abs(state) == after;
    }

    /** The states that read a bit field and output nothing. */
    method FieldStep() returns (st: HsdState)
      requires InputOk() && WindowOk() && WfPhase(config, Abs(state).phase)
      requires state != StYieldBackref && state != StYieldLiteral
      modifies this`inputIndex, this`inputSize, this`bitIndex, this`currentByte, this`unread, this`outputIndex
      modifies this`outputCount
      ensures InputOk() && WindowOk() && Abs(st) == Step(config, old(Abs(state)))
    {
      ghost var before := Abs(state);
      ghost var v, taken;
      match state {
        case StTagBit => st, v, taken := TagBitStep();
        case StIndexMsb => st, v, taken := IndexMsbStep();
        case StIndexLsb => st, v, taken := IndexLsbStep();
        case StCountMsb => st, v, taken := CountMsbStep();
        case StCountLsb => st, v, taken := CountLsbStep();
      }
      ReadStep(config, before, v, taken, unread);
    }

    method Finish() returns (res: FinishRes)
      ensures res == FinishDone <==> inputSize == 0 && state != StYieldBackref
    {
      match state {
        case StTagBit => return if inputSize == 0 then FinishDone else FinishMore;
        case StIndexLsb => return if inputSize == 0 then FinishDone else FinishMore;
        case StIndexMsb => return if inputSize == 0 then FinishDone else FinishMore;
        case StCountLsb => return if inputSize == 0 then FinishDone else FinishMore;
        case StCountMsb => return if inputSize == 0 then FinishDone else FinishMore;
        case StYieldLiteral => return if inputSize == 0 then FinishDone else FinishMore;
        case _ => return FinishMore;
      }
    }

    // -- feeding one byte at a time --------------------------------------------------
    // The two predicates are sealed: users of the decoder carry them along, and only
    // a proof that mentions OpenDecoder looks inside.

    ghost predicate Known()
      requires ValidConfig(config)
      reads this`sunk, this`decoded, this`behind
    {
      && decoded == Decode(config, sunk)
      && (sunk != [] ==> behind == |Decode(config, sunk[..|sunk| - 1])|)
    }

    /** Waiting for input or for output room, with less than a byte unread. */
    ghost predicate Resting()
      reads this, buffers
    {
      ValidConfig(config) && forall u {:trigger OpenDecoder(u)} :: OpenDecoder(u) ==>
        Valid() && Known() && |unread| < 8 && Stalled(config, Abs(state), true)
    }

    /** The first turn of a poll will leave less than a byte unread. */
    ghost predicate Ready()
      reads this, buffers
    {
      ValidConfig(config) && forall u {:trigger OpenDecoder(u)} :: OpenDecoder(u) ==>
        Valid() && Known() && StepLeft(config, Abs(state).phase, |unread|) < 8
    }

    lemma RestingReady()
      requires Resting()
      ensures Ready() && inputSize == 0
    {
      assert OpenDecoder(true);
      ghost var queued := |buffers[inputIndex..inputSize]|;
      assert |unread| >= 8 * queued;
    }

    lemma ResetResting()
      requires Valid() && state == StTagBit && unread == [] && sunk == [] && decoded == []
      ensures Resting()
    {
      assert Start(Bits([])) == Start([]);
    }

    /** What has been output is what the accepted bytes decode to, except for the
        rest of a back-reference. */
    lemma OutputIsDecoded()
      requires Resting()
      ensures hist <= decoded
      ensures state != StYieldBackref ==> hist == decoded
      ensures state == StYieldBackref ==> |hist| < |decoded|
    {
      assert OpenDecoder(true);
      if state == StYieldBackref {
        assert Advance(config, Abs(state)).Some?;
      }
    }

    lemma DecodedIsDecode()
      requires Resting()
      ensures Known()
    {
      assert OpenDecoder(true);
    }

    /** Poll after one byte at most was sunk. */
    method PollReady(room: nat) returns (res: PollRes, out: seq<byte>)
      requires Ready() && room > 0
      modifies this, buffers
      ensures Resting() && sunk == old(sunk) && decoded == old(decoded) && behind == old(behind)
      ensures |out| <= room && hist == old(hist) + out
      ensures res == if |out| == room then PollMore else PollEmpty
      ensures |out| < room ==> state != StYieldBackref && hist == decoded
    {
      assert OpenDecoder(true);
      res, out := Poll(room);
      if |out| < room {
        assert state != StYieldBackref;
        OutputIsDecoded();
      }
    }

    /** A starved decoder takes a byte. */
    method SinkByte(b: byte) returns (res: SinkRes, accepted: nat)
      requires Resting() && state != StYieldBackref && inputBufferSize > 0
      modifies this, buffers
      ensures res == SinkOk && accepted == 1
      ensures Ready() && hist == old(hist) && sunk == old(sunk) + [b] && behind == old(|decoded|)
    {
      RestingReady();
      RestingOpened();
      res, accepted := SinkOne(b);
      SnocInit(old(sunk), b);
      NoteDecoded();
    }

    lemma RestingOpened()
      requires Resting()
      ensures Valid() && Known() && |unread| < 8 && Stalled(config, Abs(state), true)
    {
      assert OpenDecoder(true);
    }

    /** The ghost record of what has been decoded follows the byte taken. */
    ghost method NoteDecoded()
      requires Valid() && StepLeft(config, Abs(state).phase, |unread|) < 8
      requires sunk != [] && decoded == Decode(config, sunk[..|sunk| - 1])
      modifies this`behind, this`decoded
      ensures Ready() && behind == old(|decoded|)
    {
      behind, decoded := |decoded|, Decode(config, sunk);
    }

    method SinkOne(b: byte) returns (res: SinkRes, accepted: nat)
      requires Valid() && |unread| < 8 && Stalled(config, Abs(state), true) && state != StYieldBackref
      requires inputSize == 0 && inputBufferSize > 0
      modifies this, buffers
      ensures res == SinkOk && accepted == 1
      ensures Valid() && StepLeft(config, Abs(state).phase, |unread|) < 8
      ensures hist == old(hist) && sunk == old(sunk) + [b] && decoded == old(decoded)
    {
      ghost var before := Abs(state);
      res, accepted := Sink([b]);
      assert [b][..1] == [b];
      FeedByte(config, before, Bits([b]));
    }

    /** At rest, finish reports whether output is missing. */
    method FinishResting() returns (res: FinishRes)
      ensures Resting() ==> (res == FinishDone <==> hist == decoded)
    {
      res := Finish();
      if Resting() {
        RestingReady();
        OutputIsDecoded();
      }
    }

    // -- dump and restore --------------------------------------------------------------

    function Image(): DecoderImage
      reads this, buffers
    {
      DecoderImage(inputSize, inputIndex, outputCount, outputIndex, headIndex, state, currentByte, bitIndex,
                   buffers[..])
    }

    /** The struct is overwritten with that of another decoder. */
    method Restore(image: DecoderImage, ghost original: HeatshrinkDecoder)
      requires image == original.Image() && original.Resting()
      requires config == original.config && inputBufferSize == original.inputBufferSize
      requires this != original && buffers != original.buffers && buffers.Length == original.buffers.Length
      modifies this, buffers
      ensures Image() == image && Resting()
      ensures hist == original.hist && sunk == original.sunk && decoded == original.decoded && behind == original.behind
    {
      CopyFields(image, original.hist, original.sunk, original.unread, original.decoded, original.behind);
      SameImage(original);
    }

    method CopyFields(image: DecoderImage, ghost hist: seq<byte>, ghost sunk: seq<byte>, ghost unread: seq<bool>,
                      ghost decoded: seq<byte>, ghost behind: nat)
      requires |image.buffers| == buffers.Length
      modifies this, buffers
      ensures Image() == image
      ensures this.hist == hist && this.sunk == sunk && this.unread == unread
      ensures this.decoded == decoded && this.behind == behind
    {
      CopyBuffers(image.buffers);
      inputSize, inputIndex := image.inputSize, image.inputIndex;
      outputCount, outputIndex, headIndex := image.outputCount, image.outputIndex, image.headIndex;
      state, currentByte, bitIndex := image.state, image.currentByte, image.bitIndex;
      this.hist, this.sunk, this.unread, this.decoded, this.behind := hist, sunk, unread, decoded, behind;
    }

    method CopyBuffers(bytes: seq<byte>)
      requires |bytes| == buffers.Length
      modifies buffers
      ensures buffers[..] == bytes
    {
      forall i | 0 <= i < buffers.Length { buffers[i] := bytes[i]; }
    }

    lemma SameImage(other: HeatshrinkDecoder)
      requires other.Resting() && Image() == other.Image()
      requires config == other.config && inputBufferSize == other.inputBufferSize
      requires hist == other.hist && sunk == other.sunk && unread == other.unread
      requires decoded == other.decoded && behind == other.behind
      ensures Resting()
    {
      assert OpenDecoder(true);
      assert buffers[inputIndex..inputSize] == buffers[..][inputIndex..inputSize];
      assert other.buffers[inputIndex..inputSize] == other.buffers[..][inputIndex..inputSize];
      assert buffers[inputBufferSize..] == buffers[..][inputBufferSize..];
      assert other.buffers[inputBufferSize..] == other.buffers[..][inputBufferSize..];
    }
  }
}
