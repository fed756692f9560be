/** Where a run over a patch stands, and how a step takes it on. */
module PatchTrack {
  import opened Bytes
  import opened HeatshrinkSpec
  import opened PatchSpec
  import opened PatchFacts
  import opened PatchSlices
  import opened PatchRuns
  import opened PatchHalts
  import opened FlashSpec

  predicate OpenTrack(u: bool) {
    true
  }

  /** The state of a run between two steps: `stream` has been taken of the patch behind
      the header and decodes to `decoded`, of which the machine has consumed `hist`. */
  datatype Standing = Standing(host: Host, feed: Feed, header: seq<byte>, m: Machine, stream: seq<byte>,
                               decoded: seq<byte>, hist: seq<byte>, writes: seq<seq<byte>>)

  /** No byte has been taken that the machine did not need. */
  predicate Crisp(s: Standing) {
    s.hist == s.decoded || Needed(s.stream, |s.hist|)
  }

  /** The run is where the specification is after p. Sealed. */
  ghost predicate OnTrack(s: Standing, p: seq<byte>) {
    forall u {:trigger OpenTrack(u)} :: OpenTrack(u) ==> TrackOf(s, p)
  }

  ghost predicate TrackOf(s: Standing, p: seq<byte>) {
    && s.m.Running? && Wf(s.m) && s.m.used == |s.hist| && p == s.header + s.stream
    && IsHeader(s.header, s.m.toSize) && Gives(s.stream, s.decoded) && s.hist <= s.decoded && Crisp(s)
    && (s.m.state == Done ==> Needed(s.stream, |s.hist|)) && (s.m.size.More? ==> s.hist == s.decoded)
    && Reaches(s.host, Started(s.m.toSize), s.hist, s.m)
    && CutsTo(s.host, CutsFrom(s.feed, |s.header| + 1), s.m.toSize, s.hist, s.m, s.writes)
  }

  /** A request for data was answered in full, or with all there is. */
  predicate Answered(m: Machine, got: seq<byte>, all: bool) {
    m.Running? && IsData(m.state) && got != [] ==> |got| == SLICE || |got| == m.chunkSize || all
  }

  /** A step that did something leaves a size field half read only if there is no more. */
  predicate Held(m: Machine, now: Machine, idle: bool, all: bool) {
    !idle && m.Running? && IsSize(m.state) && now.Running? && now.size.More? ==> all
  }

  /** The chunk at hand: `rest` is left of it, and `tail` comes in later chunks. */
  predicate Fed(f: Feed, p: seq<byte>, rest: seq<byte>, tail: seq<byte>) {
    Offers(f, p, rest, tail) && (rest != [] || tail == [])
  }

  /** A step from s has taken `taken` and delivered `got`: what is common to all of them.
      Sealed. */
  ghost predicate Stepped(s: Standing, p: seq<byte>, rest: seq<byte>, tail: seq<byte>, taken: seq<byte>,
                          rest': seq<byte>, decoded: seq<byte>, got: seq<byte>, now: Machine, writes: seq<seq<byte>>)
  {
    forall u {:trigger OpenTrack(u)} :: OpenTrack(u) ==>
      StepOf(s, p, rest, tail, taken, rest', decoded, got, now, writes)
  }

  ghost predicate StepOf(s: Standing, p: seq<byte>, rest: seq<byte>, tail: seq<byte>, taken: seq<byte>,
                         rest': seq<byte>, decoded: seq<byte>, got: seq<byte>, now: Machine, writes: seq<seq<byte>>)
  {
    && OnTrack(s, p) && Fed(s.feed, p, rest, tail) && rest == taken + rest'
    && Gives(s.stream + taken, decoded) && s.hist + got <= decoded
    && Wf(s.m) && Reaches(s.host, s.m, got, now) && Wrote(s.host, s.m, s.writes, got, now, writes)
    && Answered(s.m, got, rest' == [] && s.hist + got == decoded)
    && Held(s.m, now, got == [] && taken == [], s.hist + got == decoded)
  }

  /** No size field is left half read if there is more. */
  lemma StepHeld(s: Standing, p: seq<byte>, rest: seq<byte>, tail: seq<byte>, taken: seq<byte>, rest': seq<byte>,
                 decoded: seq<byte>, got: seq<byte>, now: Machine, writes: seq<seq<byte>>)
    requires Stepped(s, p, rest, tail, taken, rest', decoded, got, now, writes)
    ensures now.Running? && now.size.More? ==> s.hist + got == decoded
  {
    assert OpenTrack(true);
    if got == [] && taken == [] {
      assert s.hist + got == s.hist;
      SameGives(s.stream, taken, s.decoded, decoded);
      ReachesItself(s.host, s.m, got, now);
    } else if !IsSize(s.m.state) {
      FirstOutside(s.host, CutsFrom(s.feed, |s.header| + 1), s.m.toSize, s.hist, s.m, s.writes);
      DataKeepsSize(s.host, s.m, s.writes, got, now, writes);
    }
  }

  /** Data is taken in slices. */
  lemma StepCut(s: Standing, p: seq<byte>, rest: seq<byte>, tail: seq<byte>, taken: seq<byte>, rest': seq<byte>,
                decoded: seq<byte>, got: seq<byte>, now: Machine, writes: seq<seq<byte>>)
    requires Stepped(s, p, rest, tail, taken, rest', decoded, got, now, writes)
    requires got != [] && s.m.Running? && IsData(s.m.state)
    ensures |got| <= s.m.chunkSize
    ensures IsSlice(CutsFrom(s.feed, |s.header| + 1), s.m, |got|)
  {
    assert OpenTrack(true);
    var stream := s.stream + taken;
    Assoc(s.header + s.stream, taken, rest');
    Assoc(s.header, s.stream, taken);
    SliceSized(s.host, s.m, s.writes, got, now, writes);
    SliceCut(s.feed, s.header, rest, tail, s.stream, s.decoded, stream, rest', decoded, s.hist, s.m, got);
  }

  /** The machine after a step, and its writes. */
  lemma StepReaches(s: Standing, p: seq<byte>, rest: seq<byte>, tail: seq<byte>, taken: seq<byte>, rest': seq<byte>,
                    decoded: seq<byte>, got: seq<byte>, now: Machine, writes: seq<seq<byte>>)
    requires Stepped(s, p, rest, tail, taken, rest', decoded, got, now, writes)
    ensures s.m.Running? && Reaches(s.host, Started(s.m.toSize), s.hist + got, now)
    ensures CutsTo(s.host, CutsFrom(s.feed, |s.header| + 1), s.m.toSize, s.hist + got, now, writes)
    ensures p + taken == s.header + (s.stream + taken)
    ensures s.feed.whole == s.header + (s.stream + taken) + (rest' + tail)
  {
    assert OpenTrack(true);
    ReachesConcat(s.host, Started(s.m.toSize), s.hist, s.m, got, now);
    Regroup(s.header, s.stream, taken, rest', tail);
    Assoc(p, taken, rest');
    if got != [] && IsData(s.m.state) {
      StepCut(s, p, rest, tail, taken, rest', decoded, got, now, writes);
    }
    CutsOn(s.host, CutsFrom(s.feed, |s.header| + 1), s.m.toSize, s.hist, s.m, s.writes, got, now, writes);
  }

  /** A step that succeeds. */
  lemma StepTracks(s: Standing, p: seq<byte>, rest: seq<byte>, tail: seq<byte>, taken: seq<byte>, rest': seq<byte>,
                   got: seq<byte>, s': Standing)
    requires Stepped(s, p, rest, tail, taken, rest', s'.decoded, got, s'.m, s'.writes)
    requires s'.host == s.host && s'.feed == s.feed && s'.header == s.header && s'.stream == s.stream + taken
    requires s'.hist == s.hist + got && Crisp(s') && s'.m.Running? && Wf(s'.m) && s'.m.used == |s'.hist|
    requires s.m.Running? && s'.m.toSize == s.m.toSize
    requires s'.m.state == Done ==> Needed(s'.stream, |s'.hist|)
    ensures OnTrack(s', p + taken)
    ensures taken == [] ==> s'.decoded == s.decoded
  {
    assert OpenTrack(true);
    StepReaches(s, p, rest, tail, taken, rest', s'.decoded, got, s'.m, s'.writes);
    StepHeld(s, p, rest, tail, taken, rest', s'.decoded, got, s'.m, s'.writes);
    if taken == [] {
      SameGives(s.stream, taken, s.decoded, s'.decoded);
    }
  }

  /** What a run over the patch ends with: status, bytes and writes. */
  predicate EndsWith(h: Host, f: Feed, o: Outcome, writes: seq<seq<byte>>) {
    Apply(h, f.whole) == o && WriteList(h, f) == writes
  }

  /** A step that fails. */
  lemma StepFails(s: Standing, p: seq<byte>, rest: seq<byte>, tail: seq<byte>, taken: seq<byte>, rest': seq<byte>,
                  decoded: seq<byte>, got: seq<byte>, now: Machine, writes: seq<seq<byte>>)
    requires Stepped(s, p, rest, tail, taken, rest', decoded, got, now, writes) && now.Broken?
    ensures EndsWith(s.host, s.feed, Outcome(now.error, now.written), writes)
  {
    StepReaches(s, p, rest, tail, taken, rest', decoded, got, now, writes);
    assert OpenTrack(true);
    var stream := s.stream + taken;
    StoppedBroken(s.host, s.header, s.m.toSize, stream, decoded, s.hist + got, now, rest' + tail);
    CutsEnd(s.host, s.feed, s.header, s.m.toSize, stream, rest' + tail, decoded, s.hist + got, now, writes);
  }

  /** ... while the chunk has bytes left. */
  lemma StepHalts(s: Standing, p: seq<byte>, rest: seq<byte>, tail: seq<byte>, taken: seq<byte>, rest': seq<byte>,
                  decoded: seq<byte>, got: seq<byte>, now: Machine, writes: seq<seq<byte>>)
    requires Stepped(s, p, rest, tail, taken, rest', decoded, got, now, writes) && now.Broken? && rest != []
    ensures Halts(s.host, s.feed) == Some(now.error)
  {
    var stream, more, c := s.stream + taken, rest' + tail, CutsFrom(s.feed, |s.header| + 1);
    StepReaches(s, p, rest, tail, taken, rest', decoded, got, now, writes);
    StepBreaks(s, p, rest, tail, taken, rest', decoded, got, now, writes);
    assert OpenTrack(true);
    DecodedPart(s.feed, s.header, stream, more, decoded);
    Assoc(s.header, stream, more);
    Assoc(s.stream, taken, more);
    HaltsBroken(s.host, s.feed, s.header, s.m.toSize, s.stream, taken + more, s.decoded, |s.hist|, s.hist + got,
                Decode(STATIC_CONFIG, c.q), now, writes);
  }

  /** It breaks with the slice or the size field that it began. */
  lemma StepBreaks(s: Standing, p: seq<byte>, rest: seq<byte>, tail: seq<byte>, taken: seq<byte>, rest': seq<byte>,
                   decoded: seq<byte>, got: seq<byte>, now: Machine, writes: seq<seq<byte>>)
    requires Stepped(s, p, rest, tail, taken, rest', decoded, got, now, writes) && now.Broken?
    ensures s.m.Running? && got != []
    ensures BreakStart(s.host, CutsFrom(s.feed, |s.header| + 1), CutStart(s.m.toSize), s.hist + got) <= |s.hist|
  {
    assert OpenTrack(true);
    BrokenGot(s.host, s.m, got, now);
    if IsData(s.m.state) {
      StepCut(s, p, rest, tail, taken, rest', decoded, got, now, writes);
    }
    PartBreaks(s.host, CutsFrom(s.feed, |s.header| + 1), s.m.toSize, s.hist, s.m, s.writes, got);
  }

  /** A step that finds the window sizes of another decoder. */
  lemma WindowFails(s: Standing, p: seq<byte>, rest: seq<byte>, tail: seq<byte>, taken: seq<byte>, rest': seq<byte>)
    requires OnTrack(s, p) && Offers(s.feed, p, rest, tail) && rest == taken + rest' && s.stream == []
    requires |taken| == 1 && !GoodWindow(taken[0]) && !Over(s.m)
    ensures s.m.out == [] && s.writes == [] && EndsWith(s.host, s.feed, Outcome(HEATSHRINK_HEADER, []), [])
    ensures Halts(s.host, s.feed) == Some(HEATSHRINK_HEADER)
  {
    assert OpenTrack(true);
    assert s.hist == [] && p == s.header;
    assert s.feed.whole == s.header + taken + (rest' + tail);
    StoppedWindow(s.host, s.header, s.m.toSize, s.m, taken, rest' + tail);
    StartedSize(s.host, s.m.toSize, s.m);
    HaltsWindow(s.host, s.feed, s.header, s.m.toSize, taken, rest' + tail);
    CutsWindow(s.host, s.feed, s.header, s.m.toSize, s.m, s.writes, taken, rest' + tail);
  }

  /** The patch ends here. */
  lemma EndsHere(s: Standing, p: seq<byte>)
    requires OnTrack(s, p) && s.feed.whole == p && s.m.Running? && (s.m.state != Done ==> s.hist == s.decoded)
    ensures EndsWith(s.host, s.feed,
      if s.m.state != Done then Outcome(NOT_ENOUGH_PATCH_DATA, s.m.out)
      else if s.hist == s.decoded then Outcome(s.m.toSize, s.m.out)
      else Outcome(CORRUPT_PATCH, s.m.out), s.writes)
  {
    assert OpenTrack(true);
    assert p == s.header + s.stream + [];
    StoppedAtEnd(s.host, s.header, s.m.toSize, s.stream, s.decoded, s.hist, s.m);
    CutsEnd(s.host, s.feed, s.header, s.m.toSize, s.stream, [], s.decoded, s.hist, s.m, s.writes);
  }

  /** The patch goes on after its end. */
  lemma EndsTrailing(s: Standing, p: seq<byte>, more: seq<byte>)
    requires OnTrack(s, p) && s.feed.whole == p + more && more != [] && s.m.Running? && s.m.state == Done
    ensures EndsWith(s.host, s.feed, Outcome(ALREADY_DONE, s.m.out), s.writes)
    ensures Halts(s.host, s.feed) == Some(ALREADY_DONE)
  {
    assert OpenTrack(true);
    HaltsTrailing(s.host, s.feed, s.header, s.m.toSize, s.stream, more, s.decoded, s.hist, s.m, s.writes);
    StoppedTrailing(s.host, s.header, s.m.toSize, s.stream, s.decoded, s.hist, s.m, more);
    CutsEnd(s.host, s.feed, s.header, s.m.toSize, s.stream, more, s.decoded, s.hist, s.m, s.writes);
  }

  /** All of it has been offered, and nothing has failed. */
  lemma NotHalted(s: Standing, p: seq<byte>)
    requires OnTrack(s, p) && s.feed.whole == p
    ensures Halts(s.host, s.feed) == None
  {
    assert OpenTrack(true);
    if s.stream == [] {
      NothingMore(s.header);
      HaltsOf(s.host, s.feed, s.header, s.m.toSize, []);
    } else {
      HaltsNot(s.host, s.feed, s.header, s.m.toSize, s.stream, s.decoded, s.hist, s.m, s.writes);
    }
  }

  lemma ReachesItself(h: Host, m: Machine, got: seq<byte>, now: Machine)
    requires Wf(m) && got == [] && Reaches(h, m, got, now)
    ensures now == m
  {
    assert OpenRun(true);
  }

  lemma StartedSize(h: Host, toSize: nat, m: Machine)
    requires Wf(m) && Reaches(h, Started(toSize), [], m) && !Over(m)
    ensures toSize > 0
  {
    assert OpenRun(true);
  }

  /** The outer header has been read. */
  lemma BeginsTrack(s: Standing, toSize: nat)
    requires IsHeader(s.header, toSize) && s.m == Started(toSize)
    requires s.stream == [] && s.decoded == [] && s.hist == [] && s.writes == []
    ensures OnTrack(s, s.header)
  {
    ReachesNone(s.host, s.m);
    CutsNone(s.host, CutsFrom(s.feed, |s.header| + 1), toSize);
    assert s.header + s.stream == s.header;
  }

  /** What is known of every state of a run. */
  lemma TrackAccounted(s: Standing, p: seq<byte>)
    requires OnTrack(s, p) && s.host.room <= MAX_ROOM
    ensures Accounted(s.host, s.m)
  {
    assert OpenTrack(true) && OpenRun(true);
    AllAccounted(s.host, Started(s.m.toSize), s.hist);
  }

  lemma StillCrisp(s: Standing, s': Standing, p: seq<byte>)
    requires OnTrack(s, p) && s'.stream == s.stream && s'.hist == s.hist
    requires Gives(s'.stream, s'.decoded)
    ensures Crisp(s')
  {
    assert OpenTrack(true);
    assert s.stream + [] == s.stream;
    SameGives(s.stream, [], s.decoded, s'.decoded);
  }

  lemma WholeTaken(f: Feed, p: seq<byte>, rest: seq<byte>, taken: seq<byte>)
    requires Offers(f, p, rest, []) && rest == taken + []
    ensures f.whole == p + taken
  {
  }
}
