/** How much a conversation can leave unread at any cut, and so which ceilings it survives every cut under. */
module Http1Residues {
  import opened Bytes
  import opened Options
  import opened Http1Message
  import opened Http1Machine
  import opened Http1Cutting
  import opened Http1Bodies
  import opened Http1Framing
  import opened Http1Sent

  /** Wherever `w` is cut short, a pass from `c` leaves no more than the ceiling unread. */
  ghost predicate Tame(env: Env, c: Conf, w: seq<byte>)
    requires PrefixStable(env)
  {
    forall k :: 0 <= k < |w| ==> Fits(env, Drive(env, c, w[..k]))
  }

  /** Two passes that end alike, whatever they completed on the way. */
  ghost predicate SameEnd(env: Env, c: Conf, p: seq<byte>, c2: Conf, p2: seq<byte>)
    requires PrefixStable(env)
  {
    var d, d2 := Drive(env, c, p), Drive(env, c2, p2);
    d.conf == d2.conf && d.residue == d2.residue
  }

  /** A stream is tame when its first part is, and the rest is from where that part leads. */
  lemma TameConcat(env: Env, c: Conf, u: seq<byte>, c2: Conf, v: seq<byte>)
    requires PrefixStable(env)
    requires forall n :: 0 <= n <= |v| ==> SameEnd(env, c, u + v[..n], c2, v[..n])
    ensures Tame(env, c, u + v) <==> Tame(env, c, u) && Tame(env, c2, v)
  {
    hide Drive, PrefixStable;
    var w := u + v;
    if Tame(env, c, w) {
      forall k | 0 <= k < |u|
        ensures Fits(env, Drive(env, c, u[..k]))
      {
        assert w[..k] == u[..k];
      }
      forall k | 0 <= k < |v|
        ensures Fits(env, Drive(env, c2, v[..k]))
      {
        assert w[..|u| + k] == u + v[..k];
        assert SameEnd(env, c, u + v[..k], c2, v[..k]);
      }
    }
    if Tame(env, c, u) && Tame(env, c2, v) {
      forall k | 0 <= k < |w|
        ensures Fits(env, Drive(env, c, w[..k]))
      {
        if k < |u| {
          assert w[..k] == u[..k];
        } else {
          assert w[..k] == u + v[..k - |u|];
          assert SameEnd(env, c, u + v[..k - |u|], c2, v[..k - |u|]);
        }
      }
    }
  }

  // ----- The parts of a message -----

  predicate LineFits(env: Env, line: seq<byte>) {
    |line| + 1 <= env.ceiling
  }

  predicate AtLine(c: Conf) {
    c.state.Chunked? && (c.state.dec.Size? || c.state.dec.Trailer?)
  }

  /** A line is kept back until its end, carriage return included. */
  lemma LineTame(env: Env, c: Conf, line: seq<byte>)
    requires PrefixStable(env) && AtLine(c) && !HasCrlf(line)
    ensures Tame(env, c, line + CRLF) <==> LineFits(env, line)
  {
    hide PrefixStable, Drive, HasCrlf;
    var w := line + CRLF;
    forall k | 0 <= k < |w|
      ensures Drive(env, c, w[..k]) == Driven(c, w[..k], [])
    {
      UnfinishedLine(line, k);
      DriveWaits(env, c, w[..k]);
    }
    if Tame(env, c, w) {
      assert Fits(env, Drive(env, c, w[..|w| - 1]));
    }
  }

  /** Chunk data is never kept back; half of the CRLF after it is. */
  lemma DataTame(env: Env, c: Conf, data: seq<byte>)
    requires PrefixStable(env) && c.state.Chunked? && data != [] && c.state.dec == Data(|data|)
    ensures Tame(env, c, data + CRLF) <==> env.ceiling >= 1
  {
    hide PrefixStable, Drive, AppendCapped;
    var w := data + CRLF;
    forall k | 0 <= k < |w|
      ensures var d := Drive(env, c, w[..k]);
        |d.residue| == (if k == |data| + 1 then 1 else 0) && d.conf.state.Chunked?
    {
      DataLeaves(env, c, data, k);
    }
    if Tame(env, c, w) {
      assert Fits(env, Drive(env, c, w[..|w| - 1]));
    }
  }

  lemma DataLeaves(env: Env, c: Conf, data: seq<byte>, k: nat)
    requires PrefixStable(env) && c.state.Chunked? && data != [] && c.state.dec == Data(|data|) && k < |data| + 2
    ensures var d := Drive(env, c, (data + CRLF)[..k]);
      |d.residue| == (if k == |data| + 1 then 1 else 0) && d.conf.state.Chunked?
  {
    hide PrefixStable, Drive, AppendCapped;
    var p := (data + CRLF)[..k];
    if k == 0 {
      DriveWaits(env, c, p);
    } else if k < |data| {
      DriveGoes(env, c, p);
      assert p[|p|..] == [];
      DriveWaits(env, MoveOne(env, c, p).next, []);
    } else {
      assert p == data + CRLF[..k - |data|];
      DataRead(env, c, |data|, data, CRLF[..k - |data|]);
      DriveWaits(env, At(c, AppendCapped(c.state.msg, data, c.state.cap), DataCrlf), CRLF[..k - |data|]);
    }
  }

  lemma ChunkTame(env: Env, c: Conf, k: Chunk)
    requires PrefixStable(env) && ReadingSize(c) && ChunkOk(k)
    ensures Tame(env, c, ChunkWire(k)) <==> LineFits(env, k.line)
  {
    hide PrefixStable, Drive, Tame, ChunkSize, HasCrlf;
    var next := InChunked(c, Data(|k.data|));
    var u, v := k.line + CRLF, k.data + CRLF;
    forall n | 0 <= n <= |v|
      ensures SameEnd(env, c, u + v[..n], next, v[..n])
    {
      SizeLineRead(env, c, k.line, |k.data|, v[..n]);
    }
    TameConcat(env, c, u, next, v);
    LineTame(env, c, k.line);
    DataTame(env, next, k.data);
  }

  lemma {:induction false} ChunksTame(env: Env, c: Conf, ks: seq<Chunk>)
    requires PrefixStable(env) && ReadingSize(c) && forall k :: k in ks ==> ChunkOk(k)
    ensures Tame(env, c, ChunksWire(ks)) <==> forall k :: k in ks ==> LineFits(env, k.line)
    decreases |ks|
  {
    hide PrefixStable, Drive, ChunkOk, ChunkWire, AppendCapped, LineFits;
    if ks != [] {
      var next := At(c, AppendCapped(c.state.msg, ks[0].data, c.state.cap), Size);
      var u, v := ChunkWire(ks[0]), ChunksWire(ks[1..]);
      forall n | 0 <= n <= |v|
        ensures SameEnd(env, c, u + v[..n], next, v[..n])
      {
        OneChunkRead(env, c, ks[0], v[..n]);
      }
      TameConcat(env, c, u, next, v);
      ChunkTame(env, c, ks[0]);
      ChunksTame(env, next, ks[1..]);
      assert ks == [ks[0]] + ks[1..];
    }
  }

  lemma {:induction false} TrailersTame(env: Env, c: Conf, ts: seq<seq<byte>>)
    requires PrefixStable(env) && c.state.Chunked? && c.state.dec.Trailer?
    requires forall t :: t in ts ==> TrailerOk(t)
    ensures Tame(env, c, TrailersWire(ts)) <==> env.ceiling >= 1 && forall t :: t in ts ==> LineFits(env, t)
    decreases |ts|
  {
    hide PrefixStable, Drive, Tame, TrailerOk, HasCrlf;
    if ts == [] {
      NoCrlfInNothing();
      LineTame(env, c, []);
      assert [] + CRLF == CRLF;
    } else {
      var u, v := ts[0] + CRLF, TrailersWire(ts[1..]);
      TrailerHasNoCrlf(ts[0]);
      forall n | 0 <= n <= |v|
        ensures SameEnd(env, c, u + v[..n], c, v[..n])
      {
        TrailerLineRead(env, c, ts[0], v[..n]);
      }
      TameConcat(env, c, u, c, v);
      LineTame(env, c, ts[0]);
      TrailersTame(env, c, ts[1..]);
      assert ts == [ts[0]] + ts[1..];
    }
  }

  lemma TrailerHasNoCrlf(t: seq<byte>)
    requires TrailerOk(t)
    ensures t != [] && !HasCrlf(t)
  {
  }

  lemma TrailerLineRead(env: Env, c: Conf, line: seq<byte>, rest: seq<byte>)
    requires PrefixStable(env) && c.state.Chunked? && c.state.dec.Trailer? && TrailerOk(line)
    ensures Drive(env, c, line + CRLF + rest) == Drive(env, c, rest)
  {
    hide PrefixStable, Drive, CrlfAt;
    LineEnds(line, rest);
    assert (line + CRLF + rest)[|line| + 2..] == rest;
    DriveGoes(env, c, line + CRLF + rest);
    assert [] + Drive(env, c, rest).done == Drive(env, c, rest).done;
  }

  predicate BodyFits(env: Env, b: ChunkedBytes) {
    && (forall k :: k in b.chunks ==> LineFits(env, k.line))
    && LineFits(env, b.last)
    && (forall t :: t in b.trailers ==> LineFits(env, t))
  }

  lemma DataWireTame(env: Env, c: Conf, b: ChunkedBytes)
    requires PrefixStable(env) && ReadingSize(c) && BytesOk(b)
    ensures Tame(env, c, DataWire(b)) <==>
            (forall k :: k in b.chunks ==> LineFits(env, k.line)) && LineFits(env, b.last)
  {
    hide PrefixStable, Drive, Tame, ChunkOk, TrailerOk, ChunksWire, AppendCapped, LineFits, HasCrlf, ChunkSize;
    var next := At(c, AppendCapped(c.state.msg, Payload(b.chunks), c.state.cap), Size);
    var u, v := ChunksWire(b.chunks), b.last + CRLF;
    forall n | 0 <= n <= |v|
      ensures SameEnd(env, c, u + v[..n], next, v[..n])
    {
      ChunksRead(env, c, b.chunks, v[..n]);
    }
    TameConcat(env, c, u, next, v);
    ChunksTame(env, c, b.chunks);
    LineTame(env, next, b.last);
  }

  lemma BodyTame(env: Env, c: Conf, b: ChunkedBytes)
    requires PrefixStable(env) && ReadingSize(c) && BytesOk(b)
    ensures Tame(env, c, Wire(b)) <==> BodyFits(env, b)
  {
    hide PrefixStable, Drive, Tame, BytesOk, DataWire, TrailersWire, AppendCapped;
    var next := At(c, AppendCapped(c.state.msg, Payload(b.chunks), c.state.cap), Trailer);
    var u, v := DataWire(b), TrailersWire(b.trailers);
    forall n | 0 <= n <= |v|
      ensures SameEnd(env, c, u + v[..n], next, v[..n])
    {
      DataWireRead(env, c, b, v[..n]);
    }
    TameConcat(env, c, u, next, v);
    DataWireTame(env, c, b);
    TrailersAreOk(b);
    TrailersTame(env, next, b.trailers);
  }

  // ----- Whole messages -----

  /** What a sender can check: the head but for its last byte, and every line with its carriage return, fit. */
  predicate MessageFits(env: Env, m: Sent) {
    |m.head| <= env.ceiling + 1 && (m.body.InChunks? ==> BodyFits(env, m.body.chunked))
  }

  lemma HeadIsUnfinished(env: Env, head: seq<byte>, k: nat)
    requires PrefixStable(env) && HeadOk(env, head) && k < |head|
    ensures Drive(env, FRESH.conf, head[..k]) == Driven(FRESH.conf, head[..k], [])
  {
    hide Drive, PrefixStable, HeadOk;
    ShortHeadIsPartial(env, head, k);
    DriveWaits(env, FRESH.conf, head[..k]);
  }

  lemma ShortHeadIsPartial(env: Env, head: seq<byte>, k: nat)
    requires PrefixStable(env) && HeadOk(env, head) && k < |head|
    ensures env.parseHead(head[..k]).Partial?
  {
    assert head[..k] + head[k..] == head;
    assert StableAt(env, head[..k], head[k..]);
  }

  lemma HeadTame(env: Env, head: seq<byte>)
    requires PrefixStable(env) && HeadOk(env, head)
    ensures Tame(env, FRESH.conf, head) <==> |head| <= env.ceiling + 1
  {
    hide PrefixStable, Drive;
    forall k | 0 <= k < |head|
      ensures Drive(env, FRESH.conf, head[..k]) == Driven(FRESH.conf, head[..k], [])
    {
      HeadIsUnfinished(env, head, k);
    }
    if Tame(env, FRESH.conf, head) {
      assert Fits(env, Drive(env, FRESH.conf, head[..|head| - 1]));
    }
  }

  /** A body of declared length is used as it comes. */
  lemma LengthTame(env: Env, c: Conf, data: seq<byte>)
    requires PrefixStable(env) && c.state.Body? && c.state.remaining == |data|
    ensures Tame(env, c, data)
  {
    hide PrefixStable, Drive, AppendCapped;
    forall k | 0 <= k < |data|
      ensures Fits(env, Drive(env, c, data[..k]))
    {
      var p := data[..k];
      if k == 0 {
        DriveWaits(env, c, p);
      } else {
        DriveGoes(env, c, p);
        assert p[|p|..] == [];
        DriveWaits(env, MoveOne(env, c, p).next, []);
      }
    }
  }

  lemma MessageTame(env: Env, m: Sent)
    requires PrefixStable(env) && SentOk(env, m)
    ensures Tame(env, FRESH.conf, m.head + BodyWire(m.body)) <==> MessageFits(env, m)
  {
    hide PrefixStable, Drive, Tame, Wire, BytesOk, BodyFits, SaysChunked, SaysLength;
    var v := BodyWire(m.body);
    forall n | 0 <= n <= |v|
      ensures SameEnd(env, FRESH.conf, m.head + v[..n], Opened(env, m), v[..n])
    {
      HeadRead(env, m, v[..n]);
    }
    TameConcat(env, FRESH.conf, m.head, Opened(env, m), v);
    HeadTame(env, m.head);
    match m.body {
      case InChunks(b) => BodyTame(env, Opened(env, m), b);
      case OfLength(data) => LengthTame(env, Opened(env, m), data);
      case NoBody => NothingIsTame(env, FRESH.conf);
    }
  }

  lemma NothingIsTame(env: Env, c: Conf)
    requires PrefixStable(env)
    ensures Tame(env, c, [])
  {
  }

  lemma {:induction false} MessagesTame(env: Env, ms: seq<Sent>)
    requires PrefixStable(env) && forall m :: m in ms ==> SentOk(env, m)
    ensures Tame(env, FRESH.conf, AllWire(ms)) <==> forall m :: m in ms ==> MessageFits(env, m)
    decreases |ms|
  {
    hide PrefixStable, Drive, SentOk, BodyWire, MessageFits, Received;
    if ms != [] {
      var u, v := ms[0].head + BodyWire(ms[0].body), AllWire(ms[1..]);
      Assoc(ms[0].head, BodyWire(ms[0].body), v);
      forall n | 0 <= n <= |v|
        ensures SameEnd(env, FRESH.conf, u + v[..n], FRESH.conf, v[..n])
      {
        Assoc(ms[0].head, BodyWire(ms[0].body), v[..n]);
        OneMessageRead(env, ms[0], v[..n]);
      }
      TameConcat(env, FRESH.conf, u, FRESH.conf, v);
      MessageTame(env, ms[0]);
      MessagesTame(env, ms[1..]);
      assert ms == [ms[0]] + ms[1..];
    }
  }

  // ----- Tame streams may be cut anywhere, and only they -----

  ghost function StreamAfter(env: Env, c: Conf, p: seq<byte>): Stream
    requires PrefixStable(env)
  {
    var d := Drive(env, c, p);
    Stream(d.conf, d.residue)
  }

  /** Reads of the rest of a tame stream, whose first part `p` was read already. */
  lemma {:induction false} TameCutsAreHarmless(env: Env, c: Conf, w: seq<byte>, p: seq<byte>, pieces: seq<seq<byte>>)
    requires PrefixStable(env) && Tame(env, c, w) && Fits(env, Drive(env, c, w))
    requires p + Flatten(pieces) == w
    ensures CutsAreHarmless(env, StreamAfter(env, c, p), pieces)
    decreases |pieces|
  {
    hide PrefixStable, Drive, Fits;
    if pieces != [] {
      var s, q := StreamAfter(env, c, p), p + pieces[0];
      DriveSplit(env, c, p, pieces[0]);
      Assoc(p, pieces[0], Flatten(pieces[1..]));
      assert w[..|q|] == q;
      assert Fits(env, Drive(env, c, q)) by {
        if |q| == |w| {
          assert q == w;
        }
      }
      SameEndFits(env, Drive(env, c, q), Drive(env, s.conf, s.buf + pieces[0]));
      TameCutsAreHarmless(env, c, w, q, pieces[1..]);
    }
  }

  lemma SameEndFits(env: Env, d: Driven, d2: Driven)
    requires Fits(env, d) && d.conf == d2.conf && d.residue == d2.residue
    ensures Fits(env, d2) && Settle(env, d2) == Stream(d.conf, d.residue)
  {
  }

  /** Messages on one connection come back whole in any pieces and under any cap (the start of each body, and
      one marker exactly when that is not all of it), when the ceiling holds their heads and lines. However
      long a body is, it counts for nothing; and no cap moves a boundary. */
  lemma MessagesRoundTrip(env: Env, ms: seq<Sent>, pieces: seq<seq<byte>>)
    requires PrefixStable(env) && forall m :: m in ms ==> SentOk(env, m) && MessageFits(env, m)
    requires Flatten(pieces) == AllWire(ms)
    ensures FeedAll(env, FRESH, pieces) == Fed(FRESH, AllReceived(env, ms))
  {
    hide PrefixStable, Drive, SentOk, MessageFits, AllReceived, CutsAreHarmless;
    MessagesRead(env, ms);
    MessagesTame(env, ms);
    DriveWaits(env, FRESH.conf, []);
    assert [] + Flatten(pieces) == Flatten(pieces);
    TameCutsAreHarmless(env, FRESH.conf, AllWire(ms), [], pieces);
    CuttingOnlyLoses(env, FRESH, pieces);
  }

  /** A cut with too much left over latches the stream, and the message in flight is lost. */
  lemma TornTooLate(env: Env, ms: seq<Sent>, k: nat)
    requires PrefixStable(env) && forall m :: m in ms ==> SentOk(env, m)
    requires k < |AllWire(ms)| && !Fits(env, Drive(env, FRESH.conf, AllWire(ms)[..k]))
    ensures var w := AllWire(ms);
      Flatten([w[..k], w[k..]]) == w && FeedAll(env, FRESH, [w[..k], w[k..]]).stream != FRESH
  {
    hide PrefixStable, Drive, AllWire, Fits;
    var w := AllWire(ms);
    var pieces: seq<seq<byte>> := [w[..k], w[k..]];
    var d := Drive(env, FRESH.conf, w[..k]);
    assert pieces[1..] == [w[k..]];
    assert Flatten(pieces[1..]) == w[k..] + [] == w[k..];
    assert Flatten(pieces) == w[..k] + w[k..] == w;
    assert FRESH.buf + w[..k] == w[..k];
    LatchedStaysSilent(env, d.conf.answering, pieces[1..]);
    assert FeedOnce(env, FRESH, w[..k]).stream == Latched(d.conf.answering);
  }

  ghost predicate RoundTrips(env: Env, ms: seq<Sent>, pieces: seq<seq<byte>>)
    requires PrefixStable(env) && forall m :: m in ms ==> SentOk(env, m)
  {
    Flatten(pieces) == AllWire(ms) ==> FeedAll(env, FRESH, pieces) == Fed(FRESH, AllReceived(env, ms))
  }

  /** The condition is exact: messages survive every cutting if and only if their heads and lines fit. */
  lemma OnlyFittingMessagesRoundTrip(env: Env, ms: seq<Sent>)
    requires PrefixStable(env) && forall m :: m in ms ==> SentOk(env, m)
    ensures (forall pieces: seq<seq<byte>> :: RoundTrips(env, ms, pieces)) <==>
            (forall m :: m in ms ==> MessageFits(env, m))
  {
    hide PrefixStable, Drive, SentOk, MessageFits, AllReceived, FeedAll, AllWire, Fits;
    if forall m :: m in ms ==> MessageFits(env, m) {
      forall pieces: seq<seq<byte>>
        ensures RoundTrips(env, ms, pieces)
      {
        if Flatten(pieces) == AllWire(ms) {
          MessagesRoundTrip(env, ms, pieces);
        }
      }
    } else {
      MessagesTame(env, ms);
      var w := AllWire(ms);
      var k :| 0 <= k < |w| && !Fits(env, Drive(env, FRESH.conf, w[..k]));
      TornTooLate(env, ms, k);
      assert !RoundTrips(env, ms, [w[..k], w[k..]]);
    }
  }

  /** The shortest chunked body there is, under a ceiling of one. One read completes the message; torn between
      the two bytes that end the size line, it is lost. */
  lemma ATornLineCanCostAMessage(env: Env, m: Sent)
    requires PrefixStable(env) && SentOk(env, m) && m.body == InChunks(ChunkedBytes([], [48], [])) && env.ceiling == 1
    ensures m.head + [48, CR] + [LF, CR, LF] == AllWire([m])
    ensures FeedOnce(env, FRESH, AllWire([m])) == Fed(FRESH, [Received(env, m)])
    ensures FeedAll(env, FRESH, [m.head + [48, CR], [LF, CR, LF]]) == Fed(Latched(Other), [])
  {
    hide PrefixStable, Drive, SentOk, Received, AppendCapped, AllWire;
    ShortestWire(m);
    MessagesRead(env, [m]);
    assert [] + AllWire([m]) == AllWire([m]);
    HeadRead(env, m, [48, CR]);
    UnfinishedLine([48], 2);
    assert ([48] + [CR, LF])[..2] == [48, CR];
    DriveWaits(env, Opened(env, m), [48, CR]);
    var pieces: seq<seq<byte>> := [m.head + [48, CR], [LF, CR, LF]];
    assert FRESH.buf + pieces[0] == pieces[0];
    assert FeedOnce(env, FRESH, pieces[0]) == Fed(Latched(Other), []);
    LatchedStaysSilent(env, Other, pieces[1..]);
  }

  lemma ShortestWire(m: Sent)
    requires m.body == InChunks(ChunkedBytes([], [48], []))
    ensures AllWire([m]) == m.head + [48, CR] + [LF, CR, LF]
  {
    assert TrailersWire([]) == CRLF && ChunksWire([]) == [];
    assert BodyWire(m.body) == [48, CR, LF, CR, LF];
  }
}
