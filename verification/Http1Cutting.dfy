/** One direction of an HTTP/1 connection, fed in pieces of any size. */
module Http1Cutting {
  import opened Bytes
  import opened Options
  import opened Http1Message
  import opened Http1Machine

  datatype Stream = Stream(conf: Conf, buf: seq<byte>)

  const FRESH := Stream(Conf(Headers, Other), [])

  datatype Fed = Fed(stream: Stream, done: seq<Message>)

  /** Nothing buffered can be used yet, and it is within the ceiling. */
  ghost predicate Sound(env: Env, s: Stream) {
    MoveOne(env, s.conf, s.buf).Wait? && |s.buf| <= env.ceiling
  }

  function Latched(answering: Answering): Stream {
    Stream(Conf(Disabled(STREAM_BUFFER_EXCEEDED), answering), [])
  }

  predicate Fits(env: Env, d: Driven) {
    d.conf.state.Disabled? || |d.residue| <= env.ceiling
  }

  /** The ceiling is measured on what a whole pass leaves, never on the read itself. */
  function Settle(env: Env, d: Driven): Stream {
    if Fits(env, d) then Stream(d.conf, d.residue) else Latched(d.conf.answering)
  }

  ghost function FeedOnce(env: Env, s: Stream, data: seq<byte>): Fed
    requires PrefixStable(env)
  {
    var d := Drive(env, s.conf, s.buf + data);
    Fed(Settle(env, d), d.done)
  }

  ghost function FeedAll(env: Env, s: Stream, pieces: seq<seq<byte>>): Fed
    requires PrefixStable(env)
    decreases |pieces|
  {
    if pieces == [] then Fed(s, [])
    else
      var first := FeedOnce(env, s, pieces[0]);
      var rest := FeedAll(env, first.stream, pieces[1..]);
      Fed(rest.stream, first.done + rest.done)
  }

  /** What a cut with too much left over costs: the rest must complete nothing and latch all the same. */
  ghost predicate LatchesAnyway(env: Env, d: Driven, rest: seq<byte>)
    requires PrefixStable(env)
  {
    var later := Drive(env, d.conf, d.residue + rest);
    later.done == [] && Settle(env, later) == Latched(d.conf.answering)
  }

  ghost predicate CutsAreHarmless(env: Env, s: Stream, pieces: seq<seq<byte>>)
    requires PrefixStable(env)
    decreases |pieces|
  {
    pieces == [] ||
    var d := Drive(env, s.conf, s.buf + pieces[0]);
    if Fits(env, d) then CutsAreHarmless(env, Settle(env, d), pieces[1..])
    else LatchesAnyway(env, d, Flatten(pieces[1..]))
  }

  lemma FeedKeepsSound(env: Env, s: Stream, data: seq<byte>)
    requires PrefixStable(env)
    ensures Sound(env, FeedOnce(env, s, data).stream)
  {
    hide PrefixStable;
    var d := Drive(env, s.conf, s.buf + data);
    DriveIsStuck(env, s.conf, s.buf + data);
    if d.conf.state.Disabled? {
      assert d.residue == [];
    }
  }

  lemma FeedSplit(env: Env, s: Stream, a: seq<byte>, b: seq<byte>)
    requires PrefixStable(env)
    ensures var d := Drive(env, s.conf, s.buf + a);
      var later := Drive(env, d.conf, d.residue + b);
      FeedOnce(env, s, a + b) == Fed(Settle(env, later), d.done + later.done)
  {
    hide Drive, PrefixStable;
    Assoc(s.buf, a, b);
    DriveSplit(env, s.conf, s.buf + a, b);
  }

  lemma {:induction false} LatchedStaysSilent(env: Env, answering: Answering, pieces: seq<seq<byte>>)
    requires PrefixStable(env)
    ensures FeedAll(env, Latched(answering), pieces) == Fed(Latched(answering), [])
    decreases |pieces|
  {
    hide PrefixStable, FeedOnce;
    if pieces != [] {
      LatchedReadsNothing(env, answering, pieces[0]);
      LatchedStaysSilent(env, answering, pieces[1..]);
    }
  }

  lemma LatchedReadsNothing(env: Env, answering: Answering, data: seq<byte>)
    requires PrefixStable(env)
    ensures FeedOnce(env, Latched(answering), data) == Fed(Latched(answering), [])
  {
    hide PrefixStable, Drive;
    var c := Latched(answering).conf;
    assert [] + data == data && data[|data|..] == [];
    DriveWaits(env, c, []);
    if data != [] {
      DriveGoes(env, c, data);
    }
  }

  lemma NothingFed(env: Env, s: Stream)
    requires PrefixStable(env) && Sound(env, s)
    ensures FeedOnce(env, s, []) == Fed(s, [])
  {
    assert s.buf + [] == s.buf;
    DriveWaits(env, s.conf, s.buf);
  }

  /** However the bytes are cut, a reader gets a prefix of the messages one read gives; it gets them
      all, and ends in the same state, exactly when no piece leaves more than the ceiling unused
      with something still to come of it. */
  lemma {:induction false} CuttingOnlyLoses(env: Env, s: Stream, pieces: seq<seq<byte>>)
    requires PrefixStable(env) && Sound(env, s)
    ensures FeedAll(env, s, pieces).done <= FeedOnce(env, s, Flatten(pieces)).done
    ensures FeedAll(env, s, pieces) == FeedOnce(env, s, Flatten(pieces)) <==> CutsAreHarmless(env, s, pieces)
    decreases |pieces|
  {
    hide PrefixStable, Drive, Sound, Latched;
    if pieces == [] {
      NothingFed(env, s);
    } else {
      var a, b := pieces[0], Flatten(pieces[1..]);
      var d := Drive(env, s.conf, s.buf + a);
      var later := Drive(env, d.conf, d.residue + b);
      var first := FeedOnce(env, s, a);
      FeedKeepsSound(env, s, a);
      FeedSplit(env, s, a, b);
      CuttingOnlyLoses(env, first.stream, pieces[1..]);
      if Fits(env, d) {
        Extends(d.done, FeedAll(env, first.stream, pieces[1..]).done, later.done);
      } else {
        LatchedStaysSilent(env, d.conf.answering, pieces[1..]);
        Extends(d.done, [], later.done);
      }
    }
  }

  /** A ceiling no residue can pass makes every cutting invisible. */
  lemma {:induction false} SmallStreamsAreCutFree(env: Env, s: Stream, pieces: seq<seq<byte>>)
    requires PrefixStable(env) && |s.buf| + |Flatten(pieces)| <= env.ceiling
    ensures CutsAreHarmless(env, s, pieces)
    decreases |pieces|
  {
    hide PrefixStable, Drive;
    if pieces != [] {
      DriveIsStuck(env, s.conf, s.buf + pieces[0]);
      var d := Drive(env, s.conf, s.buf + pieces[0]);
      SmallStreamsAreCutFree(env, Settle(env, d), pieces[1..]);
    }
  }

  // ----- Exchanges: the request methods the caller saw, and the responses that answer them -----

  function AnswerTo(verb: seq<byte>): Answering {
    if verb == Ascii("HEAD") then Head else if verb == Ascii("CONNECT") then Connect else Other
  }

  /** What the caller tells the stream between reads, and the reads that follow. */
  datatype Exchange = Exchange(verb: Option<seq<byte>>, pieces: seq<seq<byte>>)

  function Expect(s: Stream, verb: Option<seq<byte>>): Stream {
    if verb.None? then s else s.(conf := s.conf.(answering := AnswerTo(verb.value)))
  }

  ghost function Run(env: Env, s: Stream, xs: seq<Exchange>): Fed
    requires PrefixStable(env)
    decreases |xs|
  {
    if xs == [] then Fed(s, [])
    else
      var first := FeedAll(env, Expect(s, xs[0].verb), xs[0].pieces);
      var rest := Run(env, first.stream, xs[1..]);
      Fed(rest.stream, first.done + rest.done)
  }

  /** The same exchanges, each read whole. */
  function Joined(xs: seq<Exchange>): seq<Exchange> {
    if xs == [] then [] else [xs[0].(pieces := [Flatten(xs[0].pieces)])] + Joined(xs[1..])
  }

  ghost predicate AllHarmless(env: Env, s: Stream, xs: seq<Exchange>)
    requires PrefixStable(env)
    decreases |xs|
  {
    xs == [] ||
    var begun := Expect(s, xs[0].verb);
    CutsAreHarmless(env, begun, xs[0].pieces) && AllHarmless(env, FeedAll(env, begun, xs[0].pieces).stream, xs[1..])
  }

  lemma ExpectKeepsSound(env: Env, s: Stream, verb: Option<seq<byte>>)
    requires Sound(env, s)
    ensures Sound(env, Expect(s, verb))
  {
    if s.conf.state.Headers? && s.buf != [] {
      assert env.parseHead(s.buf).Partial?;
    }
  }

  lemma FeedAllOfOne(env: Env, s: Stream, whole: seq<byte>)
    requires PrefixStable(env)
    ensures FeedAll(env, s, [whole]) == FeedOnce(env, s, whole)
  {
    hide FeedOnce, PrefixStable;
    var first := FeedOnce(env, s, whole);
    assert first.done + [] == first.done;
  }

  /** Whole conversations over keep-alive connections do not depend on the cuts either. */
  lemma {:induction false} ConversationsAreCutFree(env: Env, s: Stream, xs: seq<Exchange>)
    requires PrefixStable(env) && Sound(env, s) && AllHarmless(env, s, xs)
    ensures Run(env, s, xs) == Run(env, s, Joined(xs))
    decreases |xs|
  {
    hide PrefixStable, FeedOnce, Sound, CutsAreHarmless;
    if xs != [] {
      var begun, whole := Expect(s, xs[0].verb), Flatten(xs[0].pieces);
      ExpectKeepsSound(env, s, xs[0].verb);
      CuttingOnlyLoses(env, begun, xs[0].pieces);
      FeedKeepsSound(env, begun, whole);
      var first := FeedAll(env, begun, xs[0].pieces);
      ConversationsAreCutFree(env, first.stream, xs[1..]);
      assert Joined(xs)[1..] == Joined(xs[1..]);
      FeedAllOfOne(env, begun, whole);
    }
  }
}
