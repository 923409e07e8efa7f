/** Whole messages kept alive on one connection, each with whatever body its head frames, read back in order. */
module Http1Sent {
  import opened Bytes
  import opened Options
  import opened Http1Message
  import opened Http1Machine
  import opened Http1Cutting
  import opened Http1Bodies
  import opened Http1Framing

  datatype SentBody = InChunks(chunked: ChunkedBytes) | OfLength(data: seq<byte>) | NoBody

  datatype Sent = Sent(head: seq<byte>, body: SentBody)

  /** The body is what the head says: chunked, of a length, or none (an interim response, a 204, a 304, or a
      request that frames nothing). */
  ghost predicate SentOk(env: Env, m: Sent) {
    && HeadOk(env, m.head)
    && var msg := HeadOf(env, m.head);
    match m.body
    case InChunks(b) => BytesOk(b) && !Bodiless(msg) && SaysChunked(msg.headers)
    case OfLength(data) => !Bodiless(msg) && !SaysChunked(msg.headers) && SaysLength(msg.headers, |data|)
    case NoBody =>
      || Bodiless(msg)
      || (msg.isRequest && !SaysChunked(msg.headers) && forall n: nat :: !SaysLength(msg.headers, n))
  }

  function BodyWire(body: SentBody): seq<byte> {
    match body
    case InChunks(b) => Wire(b)
    case OfLength(data) => data
    case NoBody => []
  }

  function AllWire(ms: seq<Sent>): seq<byte> {
    if ms == [] then [] else ms[0].head + (BodyWire(ms[0].body) + AllWire(ms[1..]))
  }

  ghost function Received(env: Env, m: Sent): Message
    requires SentOk(env, m)
  {
    var msg := HeadOf(env, m.head);
    match m.body
    case InChunks(b) => WithBody(msg, Payload(b.chunks), env.capOf(msg.headers))
    case OfLength(data) => WithBody(msg, data, env.capOf(msg.headers))
    case NoBody => msg
  }

  ghost function AllReceived(env: Env, ms: seq<Sent>): seq<Message>
    requires forall m :: m in ms ==> SentOk(env, m)
  {
    if ms == [] then [] else [Received(env, ms[0])] + AllReceived(env, ms[1..])
  }

  /** Where the head leads. */
  ghost function Opened(env: Env, m: Sent): Conf
    requires SentOk(env, m)
  {
    var msg := HeadOf(env, m.head);
    match m.body
    case InChunks(_) => Conf(Chunked(msg, Size, env.capOf(msg.headers)), Other)
    case OfLength(data) => Conf(Body(msg, |data|, env.capOf(msg.headers)), Other)
    case NoBody => FRESH.conf
  }

  lemma HeadRead(env: Env, m: Sent, rest: seq<byte>)
    requires PrefixStable(env) && SentOk(env, m)
    ensures Drive(env, FRESH.conf, m.head + rest) ==
            Then(Driven(Opened(env, m), [], if m.body.NoBody? then [HeadOf(env, m.head)] else []),
                 Drive(env, Opened(env, m), rest))
  {
    hide Drive, BytesOk, SaysChunked, SaysLength, AfterHead;
    HeadLeadsTo(env, HeadOf(env, m.head));
    assert StableAt(env, m.head, rest);
    assert (m.head + rest)[|m.head|..] == rest;
    DriveGoes(env, FRESH.conf, m.head + rest);
  }

  lemma LengthRead(env: Env, c: Conf, data: seq<byte>, rest: seq<byte>)
    requires PrefixStable(env) && c.state.Body? && c.state.remaining == |data|
    ensures Drive(env, c, data + rest) ==
            Then(Driven(c, [], [AppendCapped(c.state.msg, data, c.state.cap)]), Drive(env, c.(state := Headers), rest))
  {
    hide Drive, AppendCapped, PrefixStable;
    assert (data + rest)[..|data|] == data && (data + rest)[|data|..] == rest;
    DriveGoes(env, c, data + rest);
  }

  lemma FreshBody(env: Env, head: seq<byte>)
    requires PrefixStable(env) && HeadOk(env, head)
    ensures HeadOf(env, head).body == [] && !HeadOf(env, head).truncated
  {
  }

  lemma OneMessageRead(env: Env, m: Sent, rest: seq<byte>)
    requires PrefixStable(env) && SentOk(env, m)
    ensures Drive(env, FRESH.conf, m.head + (BodyWire(m.body) + rest))
      == Then(Driven(FRESH.conf, [], [Received(env, m)]), Drive(env, FRESH.conf, rest))
  {
    hide Drive, PrefixStable, BytesOk, Wire, SaysChunked, SaysLength, AppendCapped, WithBody;
    FreshBody(env, m.head);
    HeadRead(env, m, BodyWire(m.body) + rest);
    var msg := HeadOf(env, m.head);
    match m.body {
      case InChunks(b) =>
        ChunkedBodyRead(env, Opened(env, m), b, rest);
        AppendToNothing(msg, Payload(b.chunks), env.capOf(msg.headers));
      case OfLength(data) =>
        LengthRead(env, Opened(env, m), data, rest);
        AppendToNothing(msg, data, env.capOf(msg.headers));
      case NoBody =>
        assert [] + rest == rest;
    }
  }

  /** Read whole, a conversation gives its messages in order, each with the start of its body under its cap. */
  lemma {:induction false} MessagesRead(env: Env, ms: seq<Sent>)
    requires PrefixStable(env) && forall m :: m in ms ==> SentOk(env, m)
    ensures Drive(env, FRESH.conf, AllWire(ms)) == Driven(FRESH.conf, [], AllReceived(env, ms))
    decreases |ms|
  {
    hide PrefixStable, Drive, SentOk, Received, BodyWire;
    if ms == [] {
      DriveWaits(env, FRESH.conf, []);
    } else {
      MessagesRead(env, ms[1..]);
      OneMessageRead(env, ms[0], AllWire(ms[1..]));
    }
  }
}
