/** The HTTP/1 state machine of one direction: what each state does with the bytes at hand. */
module Http1Machine {
  import opened Bytes
  import opened Options
  import opened Http1Message

  /** What the request a response answers says about its framing (section 6.3 of RFC 9112). */
  datatype Answering = Other | Head | Connect

  datatype ChunkState = Size | Data(remaining: nat) | DataCrlf | Trailer

  datatype State =
    | Headers
    | Body(msg: Message, remaining: nat, cap: nat)
    | UntilClose(msg: Message, cap: nat)
    | Chunked(msg: Message, dec: ChunkState, cap: nat)
    | Tunnel
    | Disabled(reason: string)

  const NOT_HTTP := "not_http"
  const CHUNK_SIZE_EXCEEDED := "chunk_size_exceeded"
  const STREAM_BUFFER_EXCEEDED := "stream_buffer_exceeded"
  const MAX_CHUNK_SIZE: nat := 0x100_0000_0000

  datatype HeadParse = Partial | Bad(reason: string) | Complete(len: nat, msg: Message)

  /** The header parser and the body cap stay opaque; `ceiling` bounds what may stay buffered. */
  datatype Env = Env(isRequest: bool, parseHead: seq<byte> -> HeadParse, capOf: seq<Header> -> nat, ceiling: nat)

  predicate StableAt(env: Env, a: seq<byte>, b: seq<byte>) {
    !env.parseHead(a).Partial? ==> env.parseHead(a + b) == env.parseHead(a)
  }

  /** More bytes never change a verdict, and a header block is made of bytes that are there. */
  ghost predicate PrefixStable(env: Env) {
    && (forall a, b :: StableAt(env, a, b))
    && (forall a :: env.parseHead(a).Complete? ==>
          var h := env.parseHead(a);
          && 0 < h.len <= |a|
          && h.msg.isRequest == env.isRequest
          && h.msg.body == [] && !h.msg.truncated && !h.msg.incomplete)
  }

  /** The head parses, alone and no less, to a message. */
  ghost predicate HeadOk(env: Env, head: seq<byte>) {
    head != [] && env.parseHead(head).Complete? && env.parseHead(head).len == |head|
  }

  ghost function HeadOf(env: Env, head: seq<byte>): Message
    requires env.parseHead(head).Complete?
  {
    env.parseHead(head).msg.(headerLen := env.parseHead(head).len)
  }

  datatype Conf = Conf(state: State, answering: Answering)

  /** One move: wait for more, stop for good, or use some bytes and perhaps complete a message. */
  datatype Move = Wait | Stop(reason: string) | Go(next: Conf, used: nat, done: seq<Message>)

  /** What a complete header block leads to. */
  function AfterHead(env: Env, answering: Answering, msg: Message): (Conf, seq<Message>) {
    if !msg.isRequest && msg.status.Some? then
      var code := msg.status.value;
      if 100 <= code < 200 then (Conf(Headers, answering), [msg])
      else if answering == Connect && 200 <= code < 300 then (Conf(Tunnel, Other), [msg])
      else if code == 204 || code == 304 || answering == Head then (Conf(Headers, Other), [msg])
      else Framed(env, Other, msg)
    else Framed(env, answering, msg)
  }

  function Framed(env: Env, answering: Answering, msg: Message): (Conf, seq<Message>) {
    var cap := env.capOf(msg.headers);
    match BodyFraming(msg.headers)
    case Length(n) => (Conf(Body(msg, n, cap), answering), [])
    case ChunkedBody => (Conf(Chunked(msg, Size, cap), answering), [])
    case Unframed =>
      if msg.isRequest then (Conf(Headers, answering), [msg]) else (Conf(UntilClose(msg, cap), answering), [])
  }

  function MoveHead(env: Env, c: Conf, b: seq<byte>): Move {
    match env.parseHead(b)
    case Partial => Wait
    case Bad(reason) => Stop(reason)
    case Complete(len, msg) =>
      var (next, done) := AfterHead(env, c.answering, msg.(headerLen := len));
      Go(next, len, done)
  }

  function MoveBody(c: Conf, b: seq<byte>): Move
    requires c.state.Body?
  {
    var Body(msg, remaining, cap) := c.state;
    if remaining <= |b| then
      Go(c.(state := Headers), remaining, [AppendCapped(msg, b[..remaining], cap)])
    else if b == [] then Wait
    else Go(c.(state := Body(AppendCapped(msg, b, cap), remaining - |b|, cap)), |b|, [])
  }

  function MoveSize(c: Conf, b: seq<byte>): Move
    requires c.state.Chunked?
  {
    if !HasCrlf(b) then Wait
    else
      var size := ChunkSize(b[..CrlfAt(b)]);
      if size.None? then Stop(NOT_HTTP)
      else if size.value > MAX_CHUNK_SIZE then Stop(CHUNK_SIZE_EXCEEDED)
      else Go(InChunked(c, if size.value == 0 then Trailer else Data(size.value)), CrlfAt(b) + 2, [])
  }

  function InChunked(c: Conf, dec: ChunkState): Conf
    requires c.state.Chunked?
  {
    c.(state := c.state.(dec := dec))
  }

  function MoveData(c: Conf, b: seq<byte>): Move
    requires c.state.Chunked? && c.state.dec.Data?
  {
    var Chunked(msg, Data(remaining), cap) := c.state;
    if b == [] then Wait
    else
      var take := Min(remaining, |b|);
      var left := remaining - take;
      var dec := if left == 0 then DataCrlf else Data(left);
      Go(c.(state := Chunked(AppendCapped(msg, b[..take], cap), dec, cap)), take, [])
  }

  function MoveTrailer(c: Conf, b: seq<byte>): Move
    requires c.state.Chunked?
  {
    if !HasCrlf(b) then Wait
    else if CrlfAt(b) == 0 then Go(c.(state := Headers), 2, [c.state.msg])
    else Go(c, CrlfAt(b) + 2, [])
  }

  function MoveChunked(c: Conf, b: seq<byte>): Move
    requires c.state.Chunked?
  {
    match c.state.dec
    case Size => MoveSize(c, b)
    case Data(_) => MoveData(c, b)
    case DataCrlf => if |b| < 2 then Wait else Go(InChunked(c, Size), 2, [])
    case Trailer => MoveTrailer(c, b)
  }

  /** A tunnel and a stream that latched off swallow whatever comes. */
  function MoveOne(env: Env, c: Conf, b: seq<byte>): Move {
    match c.state
    case Headers => if b == [] then Wait else MoveHead(env, c, b)
    case Body(_, _, _) => MoveBody(c, b)
    case UntilClose(msg, cap) =>
      if b == [] then Wait else Go(c.(state := UntilClose(AppendCapped(msg, b, cap), cap)), |b|, [])
    case Chunked(_, _, _) => MoveChunked(c, b)
    case Tunnel => if b == [] then Wait else Go(c, |b|, [])
    case Disabled(_) => if b == [] then Wait else Go(c, |b|, [])
  }

  /** States that can move on without using a byte come before those that cannot. */
  function Rank(s: State): nat {
    match s
    case Body(_, _, _) => 1
    case Chunked(_, dec, _) => if dec.Data? then 1 else 0
    case _ => 0
  }

  lemma MoveProgresses(env: Env, c: Conf, b: seq<byte>)
    requires PrefixStable(env)
    ensures var m := MoveOne(env, c, b);
      m.Go? ==> m.used <= |b| && (m.used > 0 || Rank(m.next.state) < Rank(c.state))
  {
    if c.state.Chunked? && HasCrlf(b) {
      CrlfFits(b);
    }
  }

  /** Where a pass over the bytes ends: nothing in `residue` can be used yet. */
  datatype Driven = Driven(conf: Conf, residue: seq<byte>, done: seq<Message>)

  ghost function Drive(env: Env, c: Conf, b: seq<byte>): Driven
    requires PrefixStable(env)
    decreases |b|, Rank(c.state)
  {
    MoveProgresses(env, c, b);
    match MoveOne(env, c, b)
    case Wait => Driven(c, b, [])
    case Stop(reason) => Driven(c.(state := Disabled(reason)), [], [])
    case Go(next, used, done) =>
      var rest := Drive(env, next, b[used..]);
      rest.(done := done + rest.done)
  }

  // ----- More bytes only add moves -----

  /** Whether this move takes everything because it wants more than there is. */
  predicate Swallows(c: Conf, b: seq<byte>) {
    match c.state
    case Body(_, remaining, _) => remaining > |b|
    case Chunked(_, dec, _) => dec.Data? && dec.remaining > |b|
    case Headers => false
    case _ => true
  }

  lemma MoveIsStable(env: Env, c: Conf, a: seq<byte>, b: seq<byte>)
    requires PrefixStable(env)
    requires !MoveOne(env, c, a).Wait? && !Swallows(c, a)
    ensures MoveOne(env, c, a + b) == MoveOne(env, c, a)
  {
    match c.state {
      case Headers =>
        assert StableAt(env, a, b);
      case Body(_, remaining, _) =>
        assert (a + b)[..remaining] == a[..remaining];
      case Chunked(_, dec, _) =>
        if dec.Data? {
          assert (a + b)[..dec.remaining] == a[..dec.remaining];
        } else if dec.Size? || dec.Trailer? {
          CrlfFits(a);
          CrlfIsStable(a, b);
          assert (a + b)[..CrlfAt(a)] == a[..CrlfAt(a)];
        }
    }
  }

  /** Taking part of a body now and the rest later is taking both at once. */
  lemma SwallowTwice(env: Env, c: Conf, a: seq<byte>, b: seq<byte>)
    requires Swallows(c, a) && a != [] && b != []
    ensures var first := MoveOne(env, c, a);
      && first.Go? && first.used == |a| && first.done == []
      && var second := MoveOne(env, first.next, b);
      && second.Go?
      && MoveOne(env, c, a + b) == Go(second.next, |a| + second.used, second.done)
  {
    match c.state {
      case Body(msg, remaining, cap) =>
        assert (a + b)[..Min(remaining, |a| + |b|)] == a + b[..Min(remaining - |a|, |b|)];
        assert b[..|b|] == b;
        AppendTwice(msg, a, b[..Min(remaining - |a|, |b|)], cap);
      case UntilClose(msg, cap) =>
        AppendTwice(msg, a, b, cap);
      case Chunked(msg, dec, cap) =>
        var remaining := dec.remaining;
        assert a[..|a|] == a;
        assert (a + b)[..Min(remaining, |a| + |b|)] == a + b[..Min(remaining - |a|, |b|)];
        AppendTwice(msg, a, b[..Min(remaining - |a|, |b|)], cap);
      case _ =>
    }
  }

  lemma SwallowedWaits(env: Env, c: Conf, a: seq<byte>)
    requires Swallows(c, a) && a != []
    ensures MoveOne(env, MoveOne(env, c, a).next, []).Wait?
  {
  }

  /** A pass ends where no move is left. */
  lemma {:induction false} DriveIsStuck(env: Env, c: Conf, b: seq<byte>)
    requires PrefixStable(env)
    ensures MoveOne(env, Drive(env, c, b).conf, Drive(env, c, b).residue).Wait?
    ensures |Drive(env, c, b).residue| <= |b|
    decreases |b|, Rank(c.state)
  {
    hide PrefixStable, AfterHead, AppendCapped;
    var m := MoveOne(env, c, b);
    MoveProgresses(env, c, b);
    if m.Go? {
      DriveIsStuck(env, m.next, b[m.used..]);
    }
  }

  ghost function Then(d: Driven, rest: Driven): Driven {
    rest.(done := d.done + rest.done)
  }

  lemma DriveWaits(env: Env, c: Conf, b: seq<byte>)
    requires PrefixStable(env) && MoveOne(env, c, b).Wait?
    ensures Drive(env, c, b) == Driven(c, b, [])
  {
  }

  lemma DriveGoes(env: Env, c: Conf, b: seq<byte>)
    requires PrefixStable(env) && MoveOne(env, c, b).Go?
    ensures var m := MoveOne(env, c, b);
      m.used <= |b| && Drive(env, c, b) == Then(Driven(m.next, [], m.done), Drive(env, m.next, b[m.used..]))
  {
    MoveProgresses(env, c, b);
  }

  lemma DriveStops(env: Env, c: Conf, a: seq<byte>, b: seq<byte>)
    requires PrefixStable(env) && MoveOne(env, c, a).Stop?
    ensures Drive(env, c, a + b) == Drive(env, c, a)
    ensures Drive(env, Drive(env, c, a).conf, Drive(env, c, a).residue + b) == Drive(env, c, a)
  {
    MoveIsStable(env, c, a, b);
    assert [] + b == b && b[|b|..] == [];
  }

  lemma DriveSwallows(env: Env, c: Conf, a: seq<byte>, b: seq<byte>)
    requires PrefixStable(env) && MoveOne(env, c, a).Go? && Swallows(c, a) && a != []
    ensures Drive(env, c, a) == Driven(MoveOne(env, c, a).next, [], [])
    ensures Drive(env, c, a + b) == Drive(env, MoveOne(env, c, a).next, b)
  {
    hide MoveOne, Swallows, PrefixStable;
    var next := MoveOne(env, c, a).next;
    SwallowedWaits(env, c, a);
    DriveWaits(env, next, []);
    SwallowTwice(env, c, a, [0]);
    DriveGoes(env, c, a);
    assert a[|a|..] == [];
    if b == [] {
      assert a + b == a;
    } else {
      SwallowTwice(env, c, a, b);
      DriveGoes(env, c, a + b);
      DriveGoes(env, next, b);
      var used := MoveOne(env, next, b).used;
      assert (a + b)[|a| + used..] == b[used..];
    }
  }

  lemma SwallowingUses(env: Env, c: Conf, a: seq<byte>)
    requires MoveOne(env, c, a).Go? && Swallows(c, a)
    ensures a != []
  {
  }

  /** Two passes over the parts of a read end where one pass over the whole does, with the same
      messages. */
  lemma {:induction false} DriveSplit(env: Env, c: Conf, a: seq<byte>, b: seq<byte>)
    requires PrefixStable(env)
    ensures var d := Drive(env, c, a);
      Drive(env, c, a + b) == Then(d, Drive(env, d.conf, d.residue + b))
    decreases |a|, Rank(c.state)
  {
    hide MoveOne, Swallows, Drive, PrefixStable;
    var m := MoveOne(env, c, a);
    match m {
      case Wait =>
        DriveWaits(env, c, a);
      case Stop(_) =>
        DriveStops(env, c, a, b);
        StoppedIsDisabled(env, c, a);
      case Go(next, used, done) =>
        if Swallows(c, a) {
          SwallowingUses(env, c, a);
          DriveSwallows(env, c, a, b);
          assert [] + b == b;
        } else {
          MoveProgresses(env, c, a);
          MoveIsStable(env, c, a, b);
          DriveGoes(env, c, a);
          DriveGoes(env, c, a + b);
          assert (a + b)[used..] == a[used..] + b;
          DriveSplit(env, next, a[used..], b);
          var d := Drive(env, next, a[used..]);
          Assoc(done, d.done, Drive(env, d.conf, d.residue + b).done);
        }
    }
  }

  lemma StoppedIsDisabled(env: Env, c: Conf, a: seq<byte>)
    requires PrefixStable(env) && MoveOne(env, c, a).Stop?
    ensures Drive(env, c, a) == Driven(c.(state := Disabled(MoveOne(env, c, a).reason)), [], [])
  {
  }
}
