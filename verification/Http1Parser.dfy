/** The incremental HTTP/1 parser of one direction, proved against the state machine. */
module Http1Parser {
  import opened Bytes
  import opened Options
  import opened Http1Message
  import opened Http1Machine
  import opened Http1Cutting
  import opened Http1Bodies

  datatype Step = Done(msg: Message) | NeedMore | Fail(reason: string)

  class Http1Stream {
    const env: Env
    var buf: seq<byte>
    /** Bytes before it are consumed. */
    var pos: nat
    var state: State
    var answering: Answering

    ghost predicate Valid()
      reads this
    {
      pos == 0 && PrefixStable(env) && Sound(env, Now()) && Sane(state)
    }

    ghost function Now(): Stream
      reads this
      requires pos <= |buf|
    {
      Stream(Conf(state, answering), buf[pos..])
    }

    constructor (env: Env)
      requires PrefixStable(env)
      ensures Valid() && Now() == FRESH && this.env == env
    {
      this.env := env;
      buf, pos, state, answering := [], 0, Headers, Other;
    }

    /** What is buffered between reads has the shape its state allows, and fits the ceiling. */
    method BufferedLen() returns (n: nat)
      requires Valid()
      ensures n == |Now().buf| && n <= env.ceiling && Shape(Now().conf, Now().buf)
    {
      hide PrefixStable;
      WaitingHasShape(env, Now());
      n := |buf| - pos;
    }

    method ExpectResponseTo(verb: seq<byte>)
      requires Valid()
      modifies this`answering
      ensures Valid() && Now() == Expect(old(Now()), Some(verb))
    {
      hide PrefixStable, Sound;
      ExpectKeepsSound(env, Now(), Some(verb));
      if verb == Ascii("HEAD") {
        answering := Head;
      } else if verb == Ascii("CONNECT") {
        answering := Connect;
      } else {
        answering := Other;
      }
    }

    method Feed(data: seq<byte>) returns (out: seq<Message>)
      requires Valid()
      modifies this
      ensures Valid()
      ensures Fed(Now(), out) == FeedOnce(env, old(Now()), data)
    {
      hide PrefixStable, Drive, Sane;
      ghost var was := Now();
      FeedKeepsSound(env, was, data);
      DriveKeepsSane(env, was.conf, was.buf + data);
      if state.Disabled? || state.Tunnel? {
        SwallowsAll(env, was, data);
        return [];
      }
      assert buf[0..] == buf;
      buf := buf + data;
      ghost var all := buf;
      assert buf[pos..] == all;
      out := StepAll();
      Compact();
      if !state.Disabled? && |buf| - pos > env.ceiling {
        state, buf, pos := Disabled(STREAM_BUFFER_EXCEEDED), [], 0;
      }
      DisabledIsSane(Latched(answering).conf);
    }

    /** Steps until the bytes are used up, wait for more, or cannot be parsed. */
    method StepAll() returns (out: seq<Message>)
      requires PrefixStable(env) && pos <= |buf| && !state.Disabled?
      modifies this
      ensures pos <= |buf|
      ensures Drive(env, old(Now()).conf, old(Now()).buf) == Driven(Now().conf, Now().buf, out)
    {
      hide PrefixStable, Drive, MoveOne;
      out := [];
      ghost var start := Now();
      NothingDone(env, start);
      while true
        invariant pos <= |buf| && !state.Disabled?
        invariant DoneSoFar(env, start, Now(), out)
        decreases |buf| - pos, Rank(state)
      {
        ghost var before := Now();
        var step := StepOnce();
        match step {
          case Done(msg) =>
            OneDone(env, start, before, Now(), out, msg);
            out := out + [msg];
            if pos >= |buf| {
              NothingAtHand(env, Now());
              AllDone(env, start, Now(), out);
              return;
            }
          case NeedMore =>
            NoneDone(env, start, before, Now(), out);
            AllDone(env, start, Now(), out);
            return;
          case Fail(reason) =>
            FailedAt(env, start, before, Now(), out, reason);
            state, buf, pos := Disabled(reason), [], 0;
            return;
        }
      }
    }

    /** Advances the machine until a message completes or no byte at hand can be used. */
    method StepOnce() returns (r: Step)
      requires PrefixStable(env) && pos <= |buf| && !state.Disabled?
      modifies this`state, this`pos, this`answering
      ensures pos <= |buf| && Stepped(env, old(Now()), Now(), r)
      decreases |buf| - pos, 1
    {
      hide PrefixStable, Drive, AppendCapped;
      match state {
        case Headers =>
          r := StepHeaders();
        case Body(msg, remaining, cap) =>
          state := Headers;
          r := StepBody(msg, remaining, cap);
        case Chunked(msg, dec, cap) =>
          state := Headers;
          r := StepChunked(msg, dec, cap);
        case UntilClose(msg, cap) =>
          state := Headers;
          r := StepUntilClose(msg, cap);
        case Tunnel =>
          if pos < |buf| {
            Silent(env, Now().conf, Now().buf);
          }
          pos := |buf|;
          return NeedMore;
      }
    }

    method StepHeaders() returns (r: Step)
      requires PrefixStable(env) && pos <= |buf| && state.Headers?
      modifies this`state, this`pos, this`answering
      ensures pos <= |buf| && Stepped(env, old(Now()), Now(), r)
      decreases |buf| - pos, 0
    {
      hide PrefixStable, Drive, BodyFraming, Stepped;
      ghost var was := Now();
      if pos == |buf| {
        Waits(env, was);
        return NeedMore;
      }
      var msg: Message;
      match env.parseHead(buf[pos..]) {
        case Partial =>
          Waits(env, was);
          return NeedMore;
        case Bad(reason) =>
          Fails(env, was, was, reason);
          return Fail(reason);
        case Complete(len, parsed) =>
          HeadMoves(env, was);
          pos := pos + len;
          msg := parsed.(headerLen := len);
      }
      if !msg.isRequest && msg.status.Some? {
        var code := msg.status.value;
        if 100 <= code < 200 {
          Finishes(env, was, Now(), msg);
          return Done(msg);
        }
        var asked := answering;
        answering := Other;
        if asked == Connect && 200 <= code < 300 {
          state := Tunnel;
          Finishes(env, was, Now(), msg);
          return Done(msg);
        }
        if code == 204 || code == 304 || asked == Head {
          Finishes(env, was, Now(), msg);
          return Done(msg);
        }
      }
      var cap := env.capOf(msg.headers);
      var framing := ReadFraming(msg.headers);
      match framing {
        case Length(n) =>
          state := Body(msg, n, cap);
        case ChunkedBody =>
          state := Chunked(msg, Size, cap);
        case Unframed =>
          if msg.isRequest {
            Finishes(env, was, Now(), msg);
            return Done(msg);
          }
          state := UntilClose(msg, cap);
      }
      ghost var mid := Now();
      r := StepOnce();
      Follows(env, was, mid, Now(), r);
    }

    method StepBody(msg: Message, remaining: nat, cap: nat) returns (r: Step)
      requires PrefixStable(env) && pos <= |buf| && state.Headers?
      modifies this`state, this`pos
      ensures pos <= |buf| && Stepped(env, old(Now().(conf := Conf(Body(msg, remaining, cap), answering))), Now(), r)
    {
      hide PrefixStable, Drive, AppendCapped;
      ghost var was := Now().(conf := Conf(Body(msg, remaining, cap), answering));
      var m, take := msg, Min(remaining, |buf| - pos);
      NothingAppended(msg, cap);
      if take > 0 {
        assert was.buf[..take] == buf[pos..pos + take];
        m := AppendCapped(msg, buf[pos..pos + take], cap);
        pos := pos + take;
      }
      assert was.buf[take..] == buf[pos..];
      var left := remaining - take;
      if left == 0 {
        DriveGoes(env, was.conf, was.buf);
        return Done(m);
      }
      state := Body(m, left, cap);
      if was.buf != [] {
        assert was.buf[..|was.buf|] == was.buf;
        Silent(env, was.conf, was.buf);
      }
      return NeedMore;
    }

    method StepUntilClose(msg: Message, cap: nat) returns (r: Step)
      requires PrefixStable(env) && pos <= |buf| && state.Headers?
      modifies this`state, this`pos
      ensures pos <= |buf| && Stepped(env, old(Now().(conf := Conf(UntilClose(msg, cap), answering))), Now(), r)
    {
      hide PrefixStable, Drive, AppendCapped;
      ghost var was := Now().(conf := Conf(UntilClose(msg, cap), answering));
      var m, take := msg, |buf| - pos;
      if take > 0 {
        assert was.buf == buf[pos..pos + take];
        m := AppendCapped(msg, buf[pos..pos + take], cap);
        pos := pos + take;
        Silent(env, was.conf, was.buf);
      }
      state := UntilClose(m, cap);
      return NeedMore;
    }

    method StepChunked(msg0: Message, dec0: ChunkState, cap: nat) returns (r: Step)
      requires PrefixStable(env) && pos <= |buf| && state.Headers?
      modifies this`state, this`pos
      ensures pos <= |buf| && Stepped(env, old(Now().(conf := Conf(Chunked(msg0, dec0, cap), answering))), Now(), r)
    {
      hide PrefixStable, Drive, MoveOne, Stepped, Reached;
      var msg, dec := msg0, dec0;
      ghost var was := InBody(msg, dec, cap);
      ReachedItself(env, was);
      while true
        invariant pos <= |buf| && state.Headers?
        invariant Reached(env, was, InBody(msg, dec, cap))
        decreases |buf| - pos, if dec.Data? then 1 else 0
      {
        ghost var now := InBody(msg, dec, cap);
        MoveProgresses(env, now.conf, now.buf);
        var step;
        step, msg, dec := StepInChunk(msg, dec, cap);
        match step {
          case None =>
            ReachedGoes(env, was, now, InBody(msg, dec, cap));
          case Some(Done(_)) =>
            ReachedFinishes(env, was, now, Now(), msg);
            return step.value;
          case Some(NeedMore) =>
            state := Chunked(msg, dec, cap);
            ReachedWaits(env, was, now);
            return NeedMore;
          case Some(Fail(reason)) =>
            ReachedFails(env, was, now, Now(), reason);
            return step.value;
        }
      }
    }

    /** One move inside a chunked body: how it ends the step, if it does, and where the body stands. */
    method StepInChunk(msg0: Message, dec0: ChunkState, cap: nat)
      returns (step: Option<Step>, msg: Message, dec: ChunkState)
      requires pos <= |buf|
      modifies this`pos
      ensures pos <= |buf|
      ensures var c := Conf(Chunked(msg0, dec0, cap), answering);
        match MoveOne(env, c, old(buf[pos..]))
        case Wait => step == Some(NeedMore) && pos == old(pos) && msg == msg0 && dec == dec0
        case Stop(reason) => step == Some(Fail(reason)) && pos == old(pos)
        case Go(next, used, done) =>
          && pos == old(pos) + used && buf[pos..] == old(buf[pos..])[used..]
          && if done == [] then step == None && next == Conf(Chunked(msg, dec, cap), answering)
             else step == Some(Done(msg)) && done == [msg] && next == Conf(Headers, answering) && used > 0
    {
      hide AppendCapped, ChunkSize, CrlfAt;
      msg, dec := msg0, dec0;
      var avail := buf[pos..];
      match dec {
        case Size =>
          var idx := CrlfAt(avail);
          if idx >= |avail| {
            return Some(NeedMore), msg, dec;
          }
          CrlfFits(avail);
          var size := ChunkSize(avail[..idx]);
          if size.None? {
            return Some(Fail(NOT_HTTP)), msg, dec;
          }
          if size.value > MAX_CHUNK_SIZE {
            return Some(Fail(CHUNK_SIZE_EXCEEDED)), msg, dec;
          }
          pos := pos + idx + 2;
          dec := if size.value == 0 then Trailer else Data(size.value);
        case Data(remaining) =>
          if avail == [] {
            return Some(NeedMore), msg, dec;
          }
          var take := Min(remaining, |avail|);
          msg := AppendCapped(msg, avail[..take], cap);
          pos := pos + take;
          var left := remaining - take;
          dec := if left == 0 then DataCrlf else Data(left);
        case DataCrlf =>
          if |avail| < 2 {
            return Some(NeedMore), msg, dec;
          }
          pos := pos + 2;
          dec := Size;
        case Trailer =>
          var idx := CrlfAt(avail);
          if idx >= |avail| {
            return Some(NeedMore), msg, dec;
          }
          CrlfFits(avail);
          pos := pos + idx + 2;
          if idx == 0 {
            return Some(Done(msg)), msg, dec;
          }
      }
      return None, msg, dec;
    }

    /** Where the chunk loop stands: `state` itself is set only when the loop returns. */
    ghost function InBody(msg: Message, dec: ChunkState, cap: nat): Stream
      requires pos <= |buf|
      reads this
    {
      Stream(Conf(Chunked(msg, dec, cap), answering), buf[pos..])
    }

    /** Ends the stream: the response in flight, if any, is handed over as `Finish` says. */
    method End(peerClosed: bool) returns (m: Option<Message>)
      requires Valid()
      modifies this
      ensures Valid()
      ensures (Now(), m) == Finish(env.isRequest, old(Now()), peerClosed)
    {
      hide PrefixStable, Shape;
      if env.isRequest {
        return None;
      }
      match state {
        case UntilClose(msg, _) =>
          m := Some(if peerClosed then msg else CutOff(msg));
        case Chunked(msg, dec, _) =>
          m := Some(if dec.Trailer? then msg else CutOff(msg));
        case Body(msg, _, _) =>
          m := Some(CutOff(msg));
        case _ =>
          return None;
      }
      state, buf, pos := Headers, [], 0;
    }

    /** Drops the consumed prefix. */
    method Compact()
      requires pos <= |buf|
      modifies this`buf, this`pos
      ensures pos == 0 && buf == old(buf[pos..])
    {
      if pos == 0 {
        return;
      }
      if pos >= |buf| {
        buf := [];
      } else {
        buf := buf[pos..];
      }
      pos := 0;
    }
  }

  // ----- What one step of the parser means to the machine -----

  /** From `s` the machine passes through `t` with what step `r` reports. */
  ghost predicate Stepped(env: Env, s: Stream, t: Stream, r: Step)
    requires PrefixStable(env)
  {
    match r
    case Done(msg) =>
      && (t.conf.state.Headers? || t.conf.state.Tunnel?)
      && Drive(env, s.conf, s.buf) == Then(Driven(s.conf, [], [msg]), Drive(env, t.conf, t.buf))
      && |t.buf| <= |s.buf| && (|t.buf| < |s.buf| || Rank(t.conf.state) < Rank(s.conf.state))
    case NeedMore =>
      Drive(env, s.conf, s.buf) == Drive(env, t.conf, t.buf) && MoveOne(env, t.conf, t.buf).Wait?
    case Fail(reason) =>
      Drive(env, s.conf, s.buf) == Driven(t.conf.(state := Disabled(reason)), [], [])
  }

  /** A move that completes nothing leaves the rest of the pass as it was. */
  lemma Silent(env: Env, c: Conf, b: seq<byte>)
    requires PrefixStable(env) && MoveOne(env, c, b).Go? && MoveOne(env, c, b).done == []
    ensures var m := MoveOne(env, c, b);
      m.used <= |b| && Drive(env, c, b) == Drive(env, m.next, b[m.used..])
  {
    hide PrefixStable, MoveOne, Drive;
    var m := MoveOne(env, c, b);
    DriveGoes(env, c, b);
    var rest := Drive(env, m.next, b[m.used..]);
    assert [] + rest.done == rest.done;
  }

  lemma Waits(env: Env, s: Stream)
    requires PrefixStable(env) && MoveOne(env, s.conf, s.buf).Wait?
    ensures Stepped(env, s, s, NeedMore)
  {
  }

  lemma Fails(env: Env, s: Stream, t: Stream, reason: string)
    requires PrefixStable(env) && MoveOne(env, s.conf, s.buf) == Stop(reason)
    requires t.conf.answering == s.conf.answering
    ensures Stepped(env, s, t, Fail(reason))
  {
    hide MoveOne, PrefixStable;
    StoppedIsDisabled(env, s.conf, s.buf);
  }

  lemma Finishes(env: Env, s: Stream, t: Stream, msg: Message)
    requires PrefixStable(env) && MoveOne(env, s.conf, s.buf).Go?
    requires var m := MoveOne(env, s.conf, s.buf);
      m.done == [msg] && m.next == t.conf && 0 < m.used <= |s.buf| && t.buf == s.buf[m.used..]
    requires t.conf.state.Headers? || t.conf.state.Tunnel?
    ensures Stepped(env, s, t, Done(msg))
  {
    hide MoveOne, PrefixStable, Drive;
    DriveGoes(env, s.conf, s.buf);
  }

  /** A step from `mid` is a step from `s`, when a silent move leads from `s` to `mid`. */
  lemma Follows(env: Env, s: Stream, mid: Stream, t: Stream, r: Step)
    requires PrefixStable(env) && MoveOne(env, s.conf, s.buf).Go?
    requires var m := MoveOne(env, s.conf, s.buf);
      m.done == [] && m.next == mid.conf && 0 < m.used <= |s.buf| && mid.buf == s.buf[m.used..]
    requires Stepped(env, mid, t, r)
    ensures Stepped(env, s, t, r)
  {
    hide MoveOne, PrefixStable, Drive;
    Silent(env, s.conf, s.buf);
  }

  lemma HeadMoves(env: Env, s: Stream)
    requires PrefixStable(env) && s.conf.state.Headers? && s.buf != [] && env.parseHead(s.buf).Complete?
    ensures var h := env.parseHead(s.buf);
      && 0 < h.len <= |s.buf|
      && var (next, done) := AfterHead(env, s.conf.answering, h.msg.(headerLen := h.len));
      MoveOne(env, s.conf, s.buf) == Go(next, h.len, done)
  {
  }

  // ----- The chunk loop -----

  /** The silent moves from `was` lead to `now`. */
  ghost predicate Reached(env: Env, was: Stream, now: Stream)
    requires PrefixStable(env)
  {
    && Drive(env, was.conf, was.buf) == Drive(env, now.conf, now.buf)
    && now.conf.answering == was.conf.answering
    && |now.buf| <= |was.buf|
  }

  lemma ReachedItself(env: Env, was: Stream)
    requires PrefixStable(env)
    ensures Reached(env, was, was)
  {
  }

  lemma ReachedGoes(env: Env, was: Stream, now: Stream, next: Stream)
    requires PrefixStable(env) && Reached(env, was, now) && MoveOne(env, now.conf, now.buf).Go?
    requires var m := MoveOne(env, now.conf, now.buf);
      m.done == [] && m.next == next.conf && m.used <= |now.buf| && next.buf == now.buf[m.used..]
    requires next.conf.answering == now.conf.answering
    ensures Reached(env, was, next)
  {
    hide MoveOne, PrefixStable, Drive;
    Silent(env, now.conf, now.buf);
  }

  lemma ReachedWaits(env: Env, was: Stream, now: Stream)
    requires PrefixStable(env) && Reached(env, was, now) && MoveOne(env, now.conf, now.buf).Wait?
    ensures Stepped(env, was, now, NeedMore)
  {
  }

  lemma ReachedFails(env: Env, was: Stream, now: Stream, t: Stream, reason: string)
    requires PrefixStable(env) && Reached(env, was, now) && MoveOne(env, now.conf, now.buf) == Stop(reason)
    requires t.conf.answering == now.conf.answering
    ensures Stepped(env, was, t, Fail(reason))
  {
    hide MoveOne, PrefixStable;
    StoppedIsDisabled(env, now.conf, now.buf);
  }

  lemma ReachedFinishes(env: Env, was: Stream, now: Stream, t: Stream, msg: Message)
    requires PrefixStable(env) && Reached(env, was, now) && MoveOne(env, now.conf, now.buf).Go?
    requires var m := MoveOne(env, now.conf, now.buf);
      m.done == [msg] && m.next == t.conf && 0 < m.used <= |now.buf| && t.buf == now.buf[m.used..]
    requires t.conf.state.Headers?
    ensures Stepped(env, was, t, Done(msg))
  {
    hide MoveOne, PrefixStable, Drive;
    DriveGoes(env, now.conf, now.buf);
  }

  // ----- The read loop -----

  /** From `start` the messages `out` are done and the machine stands at `now`. */
  ghost predicate DoneSoFar(env: Env, start: Stream, now: Stream, out: seq<Message>)
    requires PrefixStable(env)
  {
    Drive(env, start.conf, start.buf) == Then(Driven(start.conf, [], out), Drive(env, now.conf, now.buf))
  }

  lemma NothingDone(env: Env, start: Stream)
    requires PrefixStable(env)
    ensures DoneSoFar(env, start, start, [])
  {
    assert [] + Drive(env, start.conf, start.buf).done == Drive(env, start.conf, start.buf).done;
  }

  lemma OneDone(env: Env, start: Stream, before: Stream, now: Stream, out: seq<Message>, msg: Message)
    requires PrefixStable(env) && DoneSoFar(env, start, before, out) && Stepped(env, before, now, Done(msg))
    ensures DoneSoFar(env, start, now, out + [msg])
  {
    hide PrefixStable, Drive;
    Assoc(out, [msg], Drive(env, now.conf, now.buf).done);
  }

  lemma AllDone(env: Env, start: Stream, now: Stream, out: seq<Message>)
    requires PrefixStable(env) && DoneSoFar(env, start, now, out) && MoveOne(env, now.conf, now.buf).Wait?
    ensures Drive(env, start.conf, start.buf) == Driven(now.conf, now.buf, out)
  {
    hide PrefixStable, Drive, MoveOne;
    DriveWaits(env, now.conf, now.buf);
    assert out + [] == out;
  }

  lemma NoneDone(env: Env, start: Stream, before: Stream, now: Stream, out: seq<Message>)
    requires PrefixStable(env) && DoneSoFar(env, start, before, out) && Stepped(env, before, now, NeedMore)
    ensures DoneSoFar(env, start, now, out) && MoveOne(env, now.conf, now.buf).Wait?
  {
    hide PrefixStable, Drive, MoveOne;
  }

  lemma FailedAt(env: Env, start: Stream, before: Stream, now: Stream, out: seq<Message>, reason: string)
    requires PrefixStable(env) && DoneSoFar(env, start, before, out) && Stepped(env, before, now, Fail(reason))
    ensures Drive(env, start.conf, start.buf) == Driven(now.conf.(state := Disabled(reason)), [], out)
  {
    hide PrefixStable, Drive;
    assert out + [] == out;
  }

  lemma NothingAtHand(env: Env, now: Stream)
    requires (now.conf.state.Headers? || now.conf.state.Tunnel?) && now.buf == []
    ensures MoveOne(env, now.conf, now.buf).Wait?
  {
  }

  /** A stream that latched off, or became a tunnel, takes in nothing more. */
  lemma SwallowsAll(env: Env, s: Stream, data: seq<byte>)
    requires PrefixStable(env) && Sound(env, s)
    requires s.conf.state.Disabled? || s.conf.state.Tunnel?
    ensures FeedOnce(env, s, data) == Fed(s, [])
  {
    hide PrefixStable, Drive;
    assert s.buf == [] && [] + data == data && data[|data|..] == [];
    DriveWaits(env, s.conf, []);
    if data != [] {
      Silent(env, s.conf, data);
    }
  }
}
