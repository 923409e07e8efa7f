/** What feeding bytes to one HTTP/2 connection means, and that how the bytes are cut does not matter. */
module Http2Feed {
  import opened Bytes
  import opened Options
  import opened Http2Frames
  import opened Http2Streams
  import opened Http2Headers
  import opened Http2Eviction

  /** The connection preface (section 3.4 of RFC 9113). */
  const PREFACE: seq<byte> := Ascii("PRI * HTTP/2.0\r\n\r\nSM\r\n\r\n")
  const PREFACE_LEN := 24

  /** The bytes each side has sent that are not yet frames. */
  datatype Carver = Carver(
    // The client's first bytes, until they are known to be a preface or not.
    preface: Option<seq<byte>>,
    clientBuf: seq<byte>,
    serverBuf: seq<byte>)

  /** Everything frames change. */
  datatype Core = Core(asm: Assembler, tables: Tables)

  datatype Outcome = Alive(core: Core) | Dead(reason: Reason)

  datatype Conn = Latched(reason: Reason) | Live(carver: Carver, core: Core)

  const NewCarver := Carver(Some([]), [], [])
  const NewCore := Core(EmptyAssembler, EmptyTables)
  const NewConn := Live(NewCarver, NewCore)

  function HandleFrame(env: Env, c: Core, fromClient: bool, f: Frame): (Outcome, Output) {
    match Assemble(env, c.asm, fromClient, f)
    case Failed(reason) => (Dead(reason), Nothing)
    case Ready(asm, e) =>
      var (tables, out) := Step(env, c.tables, e);
      (Alive(Core(asm, tables)), out)
  }

  /** Frames in order, each followed by eviction, up to the first that fails. */
  function HandleFrames(env: Env, c: Core, fromClient: bool, fs: seq<Frame>): (Outcome, Output)
    decreases |fs|
  {
    if fs == [] then (Alive(c), Nothing)
    else
      var (r, out) := HandleFrame(env, c, fromClient, fs[0]);
      match r
      case Dead(_) => (r, out)
      case Alive(c1) =>
        var (r1, more) := HandleFrames(env, c1, fromClient, fs[1..]);
        (r1, out.Then(more))
  }

  /** Whether `b` could still become a preface. */
  predicate Torn(b: seq<byte>) {
    |b| < PREFACE_LEN && b == PREFACE[..|b|]
  }

  /** Settled first bytes without the preface; whatever is not one passes through whole. */
  function Strip(b: seq<byte>): seq<byte> {
    if |b| >= PREFACE_LEN && b[..PREFACE_LEN] == PREFACE then b[PREFACE_LEN..] else b
  }

  /** The frames one read completes. */
  function Carve(k: Carver, fromClient: bool, data: seq<byte>): (Carver, seq<Frame>) {
    if !fromClient then (k.(serverBuf := Residue(k.serverBuf + data)), Frames(k.serverBuf + data))
    else if k.preface.None? then (k.(clientBuf := Residue(k.clientBuf + data)), Frames(k.clientBuf + data))
    else
      var first := k.preface.value + data;
      if Torn(first) then (k.(preface := Some(first)), [])
      else
        var buf := k.clientBuf + Strip(first);
        (k.(preface := None, clientBuf := Residue(buf)), Frames(buf))
  }

  function Feed(env: Env, c: Conn, fromClient: bool, data: seq<byte>): (Conn, Output) {
    if c.Latched? then (c, Nothing)
    else
      var (k, fs) := Carve(c.carver, fromClient, data);
      var (r, out) := HandleFrames(env, c.core, fromClient, fs);
      match r
      case Dead(reason) => (Latched(reason), out)
      case Alive(core) => (Live(k, core), out)
  }

  /** One read: which side sent it, and what it held. */
  type Read = (bool, seq<byte>)

  function FeedAll(env: Env, c: Conn, inputs: seq<Read>): (Conn, Output)
    decreases |inputs|
  {
    if inputs == [] then (c, Nothing)
    else
      var (c1, out) := Feed(env, c, inputs[0].0, inputs[0].1);
      var (c2, more) := FeedAll(env, c1, inputs[1..]);
      (c2, out.Then(more))
  }

  // ---- Cutting a read in two ----

  /** What rests between reads: no whole frame is buffered, and nothing is before the preface is settled. */
  ghost predicate Rested(k: Carver) {
    && !HasFrame(k.clientBuf) && !HasFrame(k.serverBuf)
    && (k.preface.Some? ==> Torn(k.preface.value) && k.clientBuf == [])
  }

  lemma ThenNothing(o: Output)
    ensures Nothing.Then(o) == o && o.Then(Nothing) == o
  {
  }

  lemma ThenAssoc(a: Output, b: Output, c: Output)
    ensures a.Then(b).Then(c) == a.Then(b.Then(c))
  {
    Assoc(a.announced, b.announced, c.announced);
    Assoc(a.transactions, b.transactions, c.transactions);
  }

  lemma {:induction false} HandleFramesSplit(env: Env, c: Core, fromClient: bool, fs: seq<Frame>, gs: seq<Frame>)
    ensures var (r, out) := HandleFrames(env, c, fromClient, fs);
            HandleFrames(env, c, fromClient, fs + gs) ==
            match r {
              case Dead(_) => (r, out)
              case Alive(c1) =>
                var (r1, more) := HandleFrames(env, c1, fromClient, gs);
                (r1, out.Then(more))
            }
    decreases |fs|
  {
    if fs == [] {
      assert fs + gs == gs;
      ThenNothing(HandleFrames(env, c, fromClient, gs).1);
    } else {
      assert (fs + gs)[0] == fs[0] && (fs + gs)[1..] == fs[1..] + gs;
      var (r, out) := HandleFrame(env, c, fromClient, fs[0]);
      if r.Alive? {
        HandleFramesSplit(env, r.core, fromClient, fs[1..], gs);
        var (r1, out1) := HandleFrames(env, r.core, fromClient, fs[1..]);
        if r1.Alive? {
          ThenAssoc(out, out1, HandleFrames(env, r1.core, fromClient, gs).1);
        }
      }
    }
  }

  lemma PrefaceHasItsLength()
    ensures |PREFACE| == PREFACE_LEN
  {
  }

  /** More bytes never unsettle first bytes that are settled. */
  lemma StripSplit(a: seq<byte>, b: seq<byte>)
    ensures !Torn(a) ==> !Torn(a + b) && Strip(a + b) == Strip(a) + b
  {
    PrefaceHasItsLength();
    if !Torn(a) {
      if |a| >= PREFACE_LEN {
        assert (a + b)[..PREFACE_LEN] == a[..PREFACE_LEN];
        assert (a + b)[PREFACE_LEN..] == a[PREFACE_LEN..] + b;
      } else {
        assert (a + b)[..|a|] == a;
        if |a + b| >= PREFACE_LEN {
          assert (a + b)[..PREFACE_LEN][..|a|] == a;
          assert PREFACE == PREFACE[..PREFACE_LEN];
        } else {
          assert PREFACE[..|a + b|][..|a|] == PREFACE[..|a|];
        }
      }
    }
  }

  lemma CarveRests(k: Carver, fromClient: bool, data: seq<byte>)
    requires Rested(k)
    ensures Rested(Carve(k, fromClient, data).0)
  {
    ResidueIsStuck(k.clientBuf + data);
    ResidueIsStuck(k.serverBuf + data);
    if k.preface.Some? {
      ResidueIsStuck(k.clientBuf + Strip(k.preface.value + data));
    }
  }

  /** Two reads of one direction carve the frames one read of both would, torn preface and torn frames included. */
  lemma CarveSplits(k: Carver, fromClient: bool, a: seq<byte>, b: seq<byte>)
    requires Rested(k)
    ensures var (k1, fs) := Carve(k, fromClient, a);
            var (k2, gs) := Carve(k1, fromClient, b);
            Carve(k, fromClient, a + b) == (k2, fs + gs)
  {
    if !fromClient {
      Assoc(k.serverBuf, a, b);
      CarveSplit(k.serverBuf + a, b);
    } else if k.preface.None? {
      Assoc(k.clientBuf, a, b);
      CarveSplit(k.clientBuf + a, b);
    } else {
      var first := k.preface.value + a;
      Assoc(k.preface.value, a, b);
      StripSplit(first, b);
      if Torn(first) {
        EmptyFirst(Carve(k, true, a + b).1);
      } else {
        Assoc(k.clientBuf, Strip(first), b);
        CarveSplit(k.clientBuf + Strip(first), b);
      }
    }
  }

  lemma EmptyFirst(fs: seq<Frame>)
    ensures [] + fs == fs
  {
  }

  /** Two reads of one direction are worth the one read that holds both. */
  lemma FeedSplit(env: Env, c: Conn, fromClient: bool, a: seq<byte>, b: seq<byte>)
    requires c.Live? ==> Rested(c.carver)
    ensures var (c1, out) := Feed(env, c, fromClient, a);
            var (c2, more) := Feed(env, c1, fromClient, b);
            Feed(env, c, fromClient, a + b) == (c2, out.Then(more))
  {
    ThenNothing(Feed(env, c, fromClient, a).1);
    if c.Live? {
      CarveSplits(c.carver, fromClient, a, b);
      var (k1, fs) := Carve(c.carver, fromClient, a);
      HandleFramesSplit(env, c.core, fromClient, fs, Carve(k1, fromClient, b).1);
    }
  }

  // ---- Any cutting of a whole connection ----

  /** A connection's bytes in the order they were read, each tagged with who sent it. */
  function Tagged(inputs: seq<Read>): seq<(bool, byte)> {
    if inputs == [] then []
    else Tag(inputs[0].0, inputs[0].1) + Tagged(inputs[1..])
  }

  function Tag(fromClient: bool, data: seq<byte>): seq<(bool, byte)> {
    seq(|data|, i requires 0 <= i < |data| => (fromClient, data[i]))
  }

  function FeedBytewise(env: Env, c: Conn, stream: seq<(bool, byte)>): (Conn, Output)
    decreases |stream|
  {
    if stream == [] then (c, Nothing)
    else
      var (c1, out) := Feed(env, c, stream[0].0, [stream[0].1]);
      var (c2, more) := FeedBytewise(env, c1, stream[1..]);
      (c2, out.Then(more))
  }

  lemma FeedNothing(env: Env, c: Conn, fromClient: bool)
    requires c.Live? ==> Rested(c.carver)
    ensures Feed(env, c, fromClient, []) == (c, Nothing)
  {
    if c.Live? {
      var k := c.carver;
      assert k.clientBuf + [] == k.clientBuf && k.serverBuf + [] == k.serverBuf;
      if k.preface.Some? {
        assert k.preface.value + [] == k.preface.value;
      }
    }
  }

  lemma {:induction false} ReadIsItsBytes(env: Env, c: Conn, fromClient: bool, data: seq<byte>, rest: seq<(bool, byte)>)
    requires c.Live? ==> Rested(c.carver)
    ensures var (c1, out) := Feed(env, c, fromClient, data);
            var (c2, more) := FeedBytewise(env, c1, rest);
            FeedBytewise(env, c, Tag(fromClient, data) + rest) == (c2, out.Then(more))
    decreases |data|
  {
    var tagged := Tag(fromClient, data);
    if data == [] {
      FeedNothing(env, c, fromClient);
      assert tagged + rest == rest;
      ThenNothing(FeedBytewise(env, c, rest).1);
    } else {
      var head, tail := data[..1], data[1..];
      assert data == head + tail && head == [data[0]];
      assert (tagged + rest)[1..] == Tag(fromClient, tail) + rest;
      var (c1, out) := Feed(env, c, fromClient, head);
      if c.Live? {
        CarveRests(c.carver, fromClient, head);
      }
      ReadIsItsBytes(env, c1, fromClient, tail, rest);
      FeedSplit(env, c, fromClient, head, tail);
      var (c2, out2) := Feed(env, c1, fromClient, tail);
      ThenAssoc(out, out2, FeedBytewise(env, c2, rest).1);
    }
  }

  lemma {:induction false} CuttingIsInvisible(env: Env, c: Conn, inputs: seq<Read>)
    requires c.Live? ==> Rested(c.carver)
    ensures FeedAll(env, c, inputs) == FeedBytewise(env, c, Tagged(inputs))
    decreases |inputs|
  {
    if inputs != [] {
      if c.Live? {
        CarveRests(c.carver, inputs[0].0, inputs[0].1);
      }
      CuttingIsInvisible(env, Feed(env, c, inputs[0].0, inputs[0].1).0, inputs[1..]);
      ReadIsItsBytes(env, c, inputs[0].0, inputs[0].1, Tagged(inputs[1..]));
    }
  }

  /**
   Two runs whose bytes are the same, in the same order and from the same sides, announce the same
   streams, complete the same transactions, latch for the same reason and end in the same state,
   however each cut its bytes into reads.
   */
  lemma AnyCutting(env: Env, one: seq<Read>, other: seq<Read>)
    requires Tagged(one) == Tagged(other)
    ensures FeedAll(env, NewConn, one) == FeedAll(env, NewConn, other)
  {
    PrefaceHasItsLength();
    assert PREFACE[..0] == [];
    CuttingIsInvisible(env, NewConn, one);
    CuttingIsInvisible(env, NewConn, other);
  }

  // ---- The whole-connection invariants ----

  ghost predicate CoreSound(env: Env, c: Core) {
    Held(env, c.asm) && Disjoint(c.tables) && Bounded(env, c.tables)
  }

  /** What holds between reads, on every run: bounds, disjointness and byte accounting. */
  ghost predicate Sound(env: Env, c: Conn) {
    c.Live? ==> Rested(c.carver) && CoreSound(env, c.core)
  }

  lemma {:induction false} HandleFramesSound(env: Env, c: Core, fromClient: bool, fs: seq<Frame>)
    requires CoreSound(env, c)
    ensures var r := HandleFrames(env, c, fromClient, fs).0; r.Alive? ==> CoreSound(env, r.core)
    decreases |fs|
  {
    if fs != [] {
      AssembleKeeps(env, c.asm, fromClient, fs[0]);
      var a := Assemble(env, c.asm, fromClient, fs[0]);
      if a.Ready? {
        StepKeepsTables(env, c.tables, a.event);
        HandleFramesSound(env, Core(a.asm, Step(env, c.tables, a.event).0), fromClient, fs[1..]);
      }
    }
  }

  lemma FeedSound(env: Env, c: Conn, fromClient: bool, data: seq<byte>)
    requires Sound(env, c)
    ensures Sound(env, Feed(env, c, fromClient, data).0)
  {
    if c.Live? {
      CarveRests(c.carver, fromClient, data);
      HandleFramesSound(env, c.core, fromClient, Carve(c.carver, fromClient, data).1);
    }
  }

  /** After every read of every run the connection is within its bounds. */
  lemma {:induction false} RunsStaySound(env: Env, c: Conn, inputs: seq<Read>)
    requires Sound(env, c)
    ensures Sound(env, FeedAll(env, c, inputs).0)
    decreases |inputs|
  {
    if inputs != [] {
      FeedSound(env, c, inputs[0].0, inputs[0].1);
      RunsStaySound(env, Feed(env, c, inputs[0].0, inputs[0].1).0, inputs[1..]);
    }
  }

  lemma NewConnIsSound(env: Env)
    ensures Sound(env, NewConn)
  {
    PrefaceHasItsLength();
    assert PREFACE[..0] == [];
  }

  // ---- From reads to events ----

  /** The events reads amount to, up to the first frame that fails. The stream tables play no part. */
  function EventsOf(env: Env, a: Assembler, fromClient: bool, fs: seq<Frame>): (Option<Assembler>, seq<Event>)
    decreases |fs|
  {
    if fs == [] then (Some(a), [])
    else
      match Assemble(env, a, fromClient, fs[0])
      case Failed(_) => (None, [])
      case Ready(a1, e) =>
        var (a2, es) := EventsOf(env, a1, fromClient, fs[1..]);
        (a2, [e] + es)
  }

  function EventsOfReads(env: Env, k: Carver, a: Assembler, inputs: seq<Read>): seq<Event>
    decreases |inputs|
  {
    if inputs == [] then []
    else
      var (k1, fs) := Carve(k, inputs[0].0, inputs[0].1);
      var (a1, es) := EventsOf(env, a, inputs[0].0, fs);
      match a1
      case None => es
      case Some(a2) => es + EventsOfReads(env, k1, a2, inputs[1..])
  }

  lemma {:induction false} FramesAreEvents(env: Env, c: Core, fromClient: bool, fs: seq<Frame>)
    ensures var (r, out) := HandleFrames(env, c, fromClient, fs);
            var (a, es) := EventsOf(env, c.asm, fromClient, fs);
            var (tables, out') := Run(env, c.tables, es);
            && out == out'
            && (r.Alive? <==> a.Some?)
            && (r.Alive? ==> r.core == Core(a.value, tables))
    decreases |fs|
  {
    if fs != [] {
      var a := Assemble(env, c.asm, fromClient, fs[0]);
      if a.Ready? {
        var tables := Step(env, c.tables, a.event).0;
        FramesAreEvents(env, Core(a.asm, tables), fromClient, fs[1..]);
        var es := EventsOf(env, a.asm, fromClient, fs[1..]).1;
        assert ([a.event] + es)[1..] == es;
      }
    }
  }

  lemma {:induction false} RunSplit(env: Env, t: Tables, es: seq<Event>, more: seq<Event>)
    ensures var (t1, out) := Run(env, t, es);
            var (t2, out2) := Run(env, t1, more);
            Run(env, t, es + more) == (t2, out.Then(out2))
    decreases |es|
  {
    if es == [] {
      assert es + more == more;
      ThenNothing(Run(env, t, more).1);
    } else {
      assert (es + more)[1..] == es[1..] + more;
      var (t1, out) := Step(env, t, es[0]);
      RunSplit(env, t1, es[1..], more);
      var (t2, out2) := Run(env, t1, es[1..]);
      ThenAssoc(out, out2, Run(env, t2, more).1);
    }
  }

  /** The whole connection is a fold of the table step over its events. */
  lemma {:induction false} ConnectionIsAFold(env: Env, k: Carver, c: Core, inputs: seq<Read>)
    ensures var (end, out) := FeedAll(env, Live(k, c), inputs);
            var (tables, out') := Run(env, c.tables, EventsOfReads(env, k, c.asm, inputs));
            && out == out'
            && (end.Live? ==> end.core.tables == tables)
    decreases |inputs|
  {
    if inputs != [] {
      var (k1, fs) := Carve(k, inputs[0].0, inputs[0].1);
      FramesAreEvents(env, c, inputs[0].0, fs);
      var (r, out) := HandleFrames(env, c, inputs[0].0, fs);
      match r
      case Dead(reason) =>
        LatchedIsSilent(env, reason, inputs[1..]);
        ThenNothing(out);
      case Alive(c1) =>
        ConnectionIsAFold(env, k1, c1, inputs[1..]);
        RunSplit(env, c.tables, EventsOf(env, c.asm, inputs[0].0, fs).1, EventsOfReads(env, k1, c1.asm, inputs[1..]));
    }
  }

  /** Once latched, a connection neither changes nor says anything more. */
  lemma {:induction false} LatchedIsSilent(env: Env, reason: Reason, inputs: seq<Read>)
    ensures FeedAll(env, Latched(reason), inputs) == (Latched(reason), Nothing)
    decreases |inputs|
  {
    if inputs != [] {
      LatchedIsSilent(env, reason, inputs[1..]);
      ThenNothing(Nothing);
    }
  }

  // ---- Eviction, on bytes ----

  lemma {:induction false} ConformantPrefix(env: Env, p: Protocol, es: seq<Event>, n: nat)
    requires ConformantRun(env, p, es) && n < |es|
    ensures ConformantRun(env, p, es[..n])
    ensures Conformant(ObserveAll(env, p, es[..n]), es[n])
    decreases n
  {
    if n > 0 {
      ConformantPrefix(env, Observe(env, p, es[0]), es[1..], n - 1);
      assert es[..n][1..] == es[1..][..n - 1];
    }
  }

  /** Every transaction of a run was completed by one of its events. */
  lemma {:induction false} CompletedBy(env: Env, t: Tables, es: seq<Event>, tx: Transaction) returns (n: nat)
    requires tx in Run(env, t, es).1.transactions
    ensures n < |es| && tx in ApplyEvent(env, Run(env, t, es[..n]).0, es[n]).1.transactions
    decreases |es|
  {
    var (t1, out) := Step(env, t, es[0]);
    if tx in out.transactions {
      n := 0;
    } else {
      n := CompletedBy(env, t1, es[1..], tx);
      n := n + 1;
      assert es[..n][0] == es[0] && es[..n][1..] == es[1..][..n - 1];
    }
  }

  /**
   Whatever bytes the two sides sent and however they were cut into reads: if the events they amount to
   are those of conformant peers, every transaction the connection reports is faithful to the history
   before the event that completed it.
   */
  lemma TransactionsAreFaithful(env: Env, inputs: seq<Read>, tx: Transaction) returns (n: nat)
    requires ConformantRun(env, NothingSeen, EventsOfReads(env, NewCarver, EmptyAssembler, inputs))
    requires tx in FeedAll(env, NewConn, inputs).1.transactions
    ensures var es := EventsOfReads(env, NewCarver, EmptyAssembler, inputs);
            n < |es| && Faithful(env, es[..n], es[n], tx)
  {
    var es := EventsOfReads(env, NewCarver, EmptyAssembler, inputs);
    ConnectionIsAFold(env, NewCarver, NewCore, inputs);
    n := CompletedBy(env, EmptyTables, es, tx);
    ConformantPrefix(env, NothingSeen, es, n);
    EvictionIsExact(env, es[..n], es[n], tx);
  }
}
