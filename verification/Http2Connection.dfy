/** The HTTP/2 connection tracker itself: one object, updated in place, one frame at a time. */
module Http2Connection {
  import opened Bytes
  import opened Options
  import opened Http2Frames
  import opened Http2Streams
  import opened Http2Headers
  import opened Http2Eviction
  import opened Http2Feed

  /** What `stream` and `mark_ended` do, one after the other, to an entry that is already stored. */
  function End(t: Tables, fromClient: bool, id: nat): (Tables, Output) {
    var before := Lookup(t, id);
    var st := if fromClient then before.(reqEnded := true) else before.(respEnded := true);
    var announced := if fromClient && !before.reqEnded then [id] else [];
    if st.respEnded then (Drop(Store(t, id, st), id), Output(announced, [TransactionOf(id, st)]))
    else (Store(t, id, st), Output(announced, []))
  }

  /** An entry's content after an event, before the event's own end of stream. */
  function ContentStep(env: Env, st: StreamState, e: Event): StreamState
    requires e.Touches()
  {
    match e
    case Block(fromClient, _, _, fields) =>
      ApplyFields(env, st.(requestSeen := st.requestSeen || fromClient), fromClient, fields)
    case Data(fromClient, _, _, body) => ApplyData(env, st, fromClient, body)
  }

  lemma StoreTwice(t: Tables, id: nat, a: StreamState, b: StreamState)
    ensures Lookup(Store(t, id, a), id) == a
    ensures Store(Store(t, id, a), id, b) == Store(t, id, b)
  {
  }

  /** Storing the content and then ending the stream is what `ApplyEvent` does in one step. */
  lemma ContentThenEnd(env: Env, t: Tables, e: Event)
    requires e.Touches() && e.id !in t.reset
    ensures var t1 := NoteFirst(t, e);
            var t2 := Store(t1, e.id, ContentStep(env, Lookup(t1, e.id), e));
            ApplyEvent(env, t, e) == if e.endStream then End(t2, e.fromClient, e.id) else (t2, Nothing)
  {
    var t1 := NoteFirst(t, e);
    var before := Lookup(t1, e.id);
    var st := ContentStep(env, before, e);
    if e.Block? {
      FieldsKeep(env, before.(requestSeen := before.requestSeen || e.fromClient), e.fromClient, e.fields);
    }
    StoreTwice(t1, e.id, st, EntryStep(env, before, e));
  }

  lemma EvictOne(m: map<nat, StreamState>, mark: nat, cap: nat)
    requires |m| > cap
    ensures var id := Lowest(m.Keys);
            && |m - {id}| < |m|
            && EvictStreams(m, mark, cap) ==
               EvictStreams(m - {id}, if m[id].requestSeen then Max(mark, id) else mark, cap)
            && EvictOrphans(m, cap) == EvictOrphans(m - {id}, cap)
  {
    Shrinks(m, Lowest(m.Keys));
  }

  /** A frame did to the connection what its assembled event says; a frame that failed reported nothing. */
  ghost predicate Handled(env: Env, t: Tables, expected: Assembled,
                          failed: Option<Reason>, out: Output, after: Core)
  {
    match expected
    case Failed(reason) => failed == Some(reason) && out == Nothing
    case Ready(a, e) => failed == None && after.asm == a && (after.tables, out) == ApplyEvent(env, t, e)
  }

  /** `whole` is `rest` after `said` has been reported. */
  ghost predicate Continues(whole: (Outcome, Output), said: Output, rest: (Outcome, Output)) {
    whole == (rest.0, said.Then(rest.1))
  }

  lemma ContinuesWith(env: Env, whole: (Outcome, Output), said: Output, c: Core, fromClient: bool,
                      frames: seq<Frame>, i: nat)
    requires i < |frames|
    requires Continues(whole, said, HandleFrames(env, c, fromClient, frames[i..]))
    ensures var (r, more) := HandleFrame(env, c, fromClient, frames[i]);
            match r
            case Dead(_) => whole == (r, said.Then(more))
            case Alive(c1) => Continues(whole, said.Then(more), HandleFrames(env, c1, fromClient, frames[i + 1..]))
  {
    assert frames[i..][1..] == frames[i + 1..];
    var (r, more) := HandleFrame(env, c, fromClient, frames[i]);
    if r.Alive? {
      ThenAssoc(said, more, HandleFrames(env, r.core, fromClient, frames[i + 1..]).1);
    }
  }

  class Http2Connection {
    const env: Env
    const clientFrames: Http2FrameDecoder
    const serverFrames: Http2FrameDecoder
    var reqBlocks: seq<seq<byte>>
    var respBlocks: seq<seq<byte>>
    var streams: map<nat, StreamState>
    var orphans: map<nat, StreamState>
    var pending: map<nat, Pending>
    var pendingBytes: nat
    var prefaceBuf: seq<byte>
    var prefaceSeen: bool
    var disabled: Option<Reason>
    var evictedThrough: nat
    var reset: set<nat>
    var firstRequest: nat

    ghost function Tabs(): Tables
      reads this
    {
      Tables(streams, orphans, evictedThrough, reset, firstRequest)
    }

    ghost function Asm(): Assembler
      reads this
    {
      Assembler(pending, pendingBytes, reqBlocks, respBlocks)
    }

    ghost function Now(): Core
      reads this
    {
      Core(Asm(), Tabs())
    }

    ghost function Kept(): Carver
      reads this, clientFrames, serverFrames
    {
      Carver(if prefaceSeen then None else Some(prefaceBuf), clientFrames.buf, serverFrames.buf)
    }

    /** The connection as a value. */
    ghost function State(): Conn
      reads this, clientFrames, serverFrames
    {
      match disabled
      case Some(reason) => Latched(reason)
      case None => Live(Kept(), Now())
    }

    /** Bytes both decoders moved so far, and twice those that still wait for the preface to settle. */
    ghost function Spent(): nat
      reads this, clientFrames, serverFrames
    {
      clientFrames.moved + serverFrames.moved + 2 * |prefaceBuf|
    }

    ghost predicate Valid()
      reads this, clientFrames, serverFrames
    {
      && clientFrames != serverFrames
      && clientFrames.Valid() && serverFrames.Valid()
      && Sound(env, State())
    }

    constructor (env: Env)
      ensures Valid() && fresh(clientFrames) && fresh(serverFrames)
      ensures this.env == env && State() == NewConn && Spent() == 0
    {
      this.env := env;
      clientFrames := new Http2FrameDecoder();
      serverFrames := new Http2FrameDecoder();
      reqBlocks, respBlocks := [], [];
      streams, orphans, pending, pendingBytes := map[], map[], map[], 0;
      prefaceBuf, prefaceSeen, disabled := [], false, None;
      evictedThrough, reset, firstRequest := 0, {}, 0;
      new;
      NewConnIsSound(env);
    }

    /** One read from one side. */
    method Feed(fromClient: bool, data: seq<byte>) returns (out: Output)
      requires Valid()
      modifies this, clientFrames, serverFrames
      ensures Valid()
      ensures (State(), out) == Http2Feed.Feed(env, old(State()), fromClient, data)
      ensures Spent() <= old(Spent()) + 2 * |data|
    {
      out := Nothing;
      if disabled.Some? {
        return;
      }
      FeedSound(env, State(), fromClient, data);
      CarveRests(Kept(), fromClient, data);
      ghost var k := Kept();
      var frames := [];
      if !fromClient {
        frames := serverFrames.Feed(data);
      } else if prefaceSeen {
        frames := clientFrames.Feed(data);
      } else {
        var rest := StripPreface(data);
        if rest.Some? {
          frames := clientFrames.Feed(rest.value);
        }
      }
      assert (Kept(), frames) == Carve(k, fromClient, data);
      out := HandleAll(fromClient, frames);
    }

    /** Handles frames in order, evicting after each, until one fails and the connection latches. */
    method HandleAll(fromClient: bool, frames: seq<Frame>) returns (out: Output)
      requires disabled.None? && CoreSound(env, Now())
      requires clientFrames != serverFrames && clientFrames.Valid() && serverFrames.Valid()
      modifies this, clientFrames, serverFrames
      ensures clientFrames.Valid() && serverFrames.Valid()
      ensures Spent() <= old(Spent())
      ensures var (r, said) := HandleFrames(env, old(Now()), fromClient, frames);
              && out == said
              && (r.Dead? ==> disabled == Some(r.reason))
              && (r.Alive? ==> disabled.None? && Now() == r.core && Kept() == old(Kept()))
    {
      out := Nothing;
      ghost var c := Now();
      ThenNothing(HandleFrames(env, c, fromClient, frames).1);
      assert frames[0..] == frames;
      var i := 0;
      while i < |frames|
        invariant 0 <= i <= |frames|
        invariant disabled.None? && Kept() == old(Kept()) && CoreSound(env, Now())
        invariant clientFrames.Valid() && serverFrames.Valid() && Spent() == old(Spent())
        invariant Continues(HandleFrames(env, c, fromClient, frames), out,
                            HandleFrames(env, Now(), fromClient, frames[i..]))
      {
        ContinuesWith(env, HandleFrames(env, c, fromClient, frames), out, Now(), fromClient, frames, i);
        var failed, more := HandleOne(fromClient, frames[i]);
        out := Output(out.announced + more.announced, out.transactions + more.transactions);
        if failed.Some? {
          disabled := failed;
          Release();
          return;
        }
        i := i + 1;
      }
      ThenNothing(out);
    }

    /** One turn of that loop: a frame, and the eviction after it. */
    method HandleOne(fromClient: bool, f: Frame) returns (failed: Option<Reason>, out: Output)
      requires CoreSound(env, Now())
      modifies this
      ensures unchanged(`prefaceBuf, `prefaceSeen, `disabled)
      ensures var (r, said) := Http2Feed.HandleFrame(env, old(Now()), fromClient, f);
              && out == said
              && (r.Dead? ==> failed == Some(r.reason))
              && (r.Alive? ==> failed.None? && Now() == r.core && CoreSound(env, Now()))
    {
      ghost var before := Now();
      ghost var expected := Assemble(env, before.asm, fromClient, f);
      AssembleKeeps(env, before.asm, fromClient, f);
      failed, out := HandleFrame(fromClient, f);
      if failed.None? {
        StepKeepsTables(env, before.tables, expected.event);
        EvictPastBound();
      }
    }

    /** Frees what a latched connection would never read again. */
    method Release()
      requires disabled.Some?
      modifies this, clientFrames, serverFrames
      ensures clientFrames.Valid() && serverFrames.Valid()
      ensures disabled == old(disabled)
      ensures clientFrames.buf == [] && serverFrames.buf == [] && Spent() <= old(Spent())
      ensures Asm() == old(Asm()).(pending := map[], pendingBytes := 0)
      ensures streams == map[] && orphans == map[] && prefaceBuf == []
    {
      clientFrames.Release();
      serverFrames.Release();
      pending, pendingBytes := map[], 0;
      streams, orphans := map[], map[];
      prefaceBuf := [];
    }

    method StripPreface(data: seq<byte>) returns (rest: Option<seq<byte>>)
      requires !prefaceSeen
      modifies this`prefaceBuf, this`prefaceSeen
      ensures var first := old(prefaceBuf) + data;
              if Torn(first) then rest == None && !prefaceSeen && prefaceBuf == first
              else rest == Some(Strip(first)) && prefaceSeen && prefaceBuf == []
    {
      PrefaceHasItsLength();
      prefaceBuf := prefaceBuf + data;
      var n := Min(|prefaceBuf|, |PREFACE|);
      assert PREFACE[..PREFACE_LEN] == PREFACE;
      if prefaceBuf[..n] != PREFACE[..n] {
        prefaceSeen := true;
        rest := Some(prefaceBuf);
        prefaceBuf := [];
      } else if |prefaceBuf| >= |PREFACE| {
        prefaceSeen := true;
        rest := Some(prefaceBuf[|PREFACE|..]);
        prefaceBuf := [];
      } else {
        rest := None;
      }
    }

    /** The entry for `id`, created if absent, and which table it is in. */
    method Stream(id: nat) returns (orphan: bool)
      modifies this`streams, this`orphans
      ensures orphan == IsOrphan(old(Tabs()), id)
      ensures Tabs() == Store(old(Tabs()), id, Lookup(old(Tabs()), id))
    {
      orphan := id in orphans
      || (id !in streams && id % 2 == 1 && firstRequest != 0 && firstRequest <= id && id <= evictedThrough);
      if orphan {
        if id !in orphans {
          orphans := orphans[id := Fresh(true)];
        }
      } else if id !in streams {
        streams := streams[id := Fresh(false)];
      }
    }

    /** Writes back the entry `Stream` found. */
    method Put(orphan: bool, id: nat, st: StreamState)
      requires orphan == IsOrphan(Tabs(), id)
      modifies this`streams, this`orphans
      ensures Tabs() == Store(old(Tabs()), id, st)
    {
      if orphan {
        orphans := orphans[id := st];
      } else {
        streams := streams[id := st];
      }
    }

    method EvictPastBound()
      modifies this`streams, this`orphans, this`evictedThrough
      ensures Tabs() == Evict(env, old(Tabs()))
    {
      var cap := Max(env.maxStreams, 1);
      while |streams| > cap
        invariant EvictStreams(streams, evictedThrough, cap) == EvictStreams(old(streams), old(evictedThrough), cap)
        invariant orphans == old(orphans)
        decreases |streams|
      {
        EvictOne(streams, evictedThrough, cap);
        var id := Lowest(streams.Keys);
        var st := streams[id];
        streams := streams - {id};
        if st.requestSeen {
          evictedThrough := Max(evictedThrough, id);
        }
      }
      while |orphans| > cap
        invariant EvictOrphans(orphans, cap) == EvictOrphans(old(orphans), cap)
        invariant (streams, evictedThrough) == EvictStreams(old(streams), old(evictedThrough), cap)
        decreases |orphans|
      {
        EvictOne(orphans, 0, cap);
        orphans := orphans - {Lowest(orphans.Keys)};
      }
      assert EvictOrphans(orphans, cap) == orphans;
      assert EvictStreams(streams, evictedThrough, cap) == (streams, evictedThrough);
    }

    /** One frame. Only the assembler and the tables change, and a frame that fails reports nothing. */
    method HandleFrame(fromClient: bool, f: Frame) returns (failed: Option<Reason>, out: Output)
      requires CoreSound(env, Now())
      modifies this
      ensures unchanged(`prefaceBuf, `prefaceSeen, `disabled)
      ensures Handled(env, old(Tabs()), Assemble(env, old(Asm()), fromClient, f), failed, out, Now())
    {
      failed, out := None, Nothing;
      if f.frameType == HEADERS {
        failed, out := OnHeaders(fromClient, f);
      } else if f.frameType == CONTINUATION {
        failed, out := OnContinuation(f);
      } else if f.frameType == DATA {
        out := OnData(fromClient, f);
      } else if f.frameType == PUSH_PROMISE {
        failed := OnPushPromise(f);
      } else if f.frameType == RST_STREAM {
        OnReset(f.streamId);
      }
    }

    method OnReset(id: nat)
      requires CoreSound(env, Now())
      modifies this`streams, this`orphans, this`pending, this`pendingBytes, this`reset
      ensures Asm() == Forget(old(Asm()), id)
      ensures (Tabs(), Nothing) == ApplyEvent(env, old(Tabs()), Reset(id))
    {
      hide KeepHighest, Accounted, Forget, EntryStep, TransactionOf;
      streams := streams - {id};
      orphans := orphans - {id};
      DropPending(id);
      RememberReset(id);
    }

    method DropPending(id: nat)
      requires Accounted(Asm())
      modifies this`pending, this`pendingBytes
      ensures Asm() == Forget(old(Asm()), id)
    {
      ForgetKeeps(Asm(), id);
      if id in pending {
        pendingBytes := pendingBytes - |pending[id].buf|;
        pending := pending - {id};
      }
    }

    /** Remembers `id`, forgetting the lowest ids past the bound, `id` itself among them if it is lowest. */
    method RememberReset(id: nat)
      modifies this`reset
      ensures reset == KeepHighest(old(reset) + {id}, TableCap(env))
    {
      reset := reset + {id};
      var cap := Max(env.maxStreams, 1);
      while |reset| > cap
        invariant KeepHighest(reset, cap) == KeepHighest(old(reset) + {id}, cap)
      {
        reset := reset - {Lowest(reset)};
      }
    }

    /** The frame's content with its padding, and `skip` fixed bytes before it, taken off. */
    method Payload(f: Frame, skip: nat) returns (content: Option<seq<byte>>)
      ensures content == Content(f, skip)
    {
      var payload, padLen := f.payload, 0;
      if HasFlag(f.flags, PADDED) {
        if payload == [] {
          return None;
        }
        padLen := payload[0];
        payload := payload[1..];
      }
      if |payload| < skip {
        return None;
      }
      ghost var unpadded := payload;
      payload := payload[skip..];
      if |payload| < padLen {
        return None;
      }
      assert payload[..|payload| - padLen] == unpadded[skip..|unpadded| - padLen];
      return Some(payload[..|payload| - padLen]);
    }

    method OnHeaders(fromClient: bool, f: Frame) returns (failed: Option<Reason>, out: Output)
      requires CoreSound(env, Now())
      modifies this
      ensures unchanged(`prefaceBuf, `prefaceSeen, `disabled)
      ensures Handled(env, old(Tabs()), AssembleHeaders(env, old(Asm()), fromClient, f), failed, out, Now())
    {
      failed, out := None, Nothing;
      var content := Payload(f, HeadersSkip(f));
      if content.None? {
        return Some(FrameMalformed), Nothing;
      }
      var block := content.value;
      var endStream := HasFlag(f.flags, END_STREAM);
      if HasFlag(f.flags, END_HEADERS) {
        failed, out := DecodeBlock(fromClient, f.streamId, block, endStream);
      } else {
        ghost var a := Asm();
        var p := Pending(fromClient, endStream, block);
        HoldKeeps(a, f.streamId, p);
        ForgetKeeps(a, f.streamId);
        if f.streamId in pending {
          pendingBytes := pendingBytes - |pending[f.streamId].buf|;
        }
        pending := pending[f.streamId := p];
        pendingBytes := pendingBytes + |block|;
        assert Asm() == Hold(a, f.streamId, p);
        if |pending| > Max(env.maxStreams, 1) || pendingBytes > env.maxStreamBuffer {
          return Some(StreamBufferExceeded), Nothing;
        }
      }
    }

    method OnContinuation(f: Frame) returns (failed: Option<Reason>, out: Output)
      requires CoreSound(env, Now())
      modifies this
      ensures unchanged(`prefaceBuf, `prefaceSeen, `disabled)
      ensures Handled(env, old(Tabs()), AssembleContinuation(env, old(Asm()), f), failed, out, Now())
    {
      failed, out := None, Nothing;
      if f.streamId !in pending {
        return Some(ContinuationWithoutHeaders), Nothing;
      }
      ghost var a := Asm();
      ForgetKeeps(a, f.streamId);
      var p := pending[f.streamId];
      pending := pending - {f.streamId};
      pendingBytes := pendingBytes - |p.buf|;
      assert Asm() == Forget(a, f.streamId);
      p := p.(buf := p.buf + f.payload);
      if pendingBytes + |p.buf| > env.maxStreamBuffer {
        return Some(StreamBufferExceeded), Nothing;
      }
      if HasFlag(f.flags, END_HEADERS) {
        failed, out := DecodeBlock(p.fromClient, f.streamId, p.buf, p.endStream);
      } else {
        pendingBytes := pendingBytes + |p.buf|;
        pending := pending[f.streamId := p];
      }
    }

    method OnPushPromise(f: Frame) returns (failed: Option<Reason>)
      modifies this`respBlocks
      ensures match AssemblePush(env, old(Asm()), f)
              case Failed(reason) => failed == Some(reason)
              case Ready(a, e) => failed == None && Asm() == a && e == Quiet
    {
      var content := Payload(f, 4);
      if content.None? {
        return Some(FrameMalformed);
      }
      var block := content.value;
      if !HasFlag(f.flags, END_HEADERS) {
        return Some(PushPromiseUnsynced);
      }
      match env.hpack(respBlocks + [block]) {
        case TableSizeExceeded => failed := Some(HpackTableSizeExceeded);
        case DecodeFailed => failed := Some(HpackDecodeFailed);
        case Headers(_) =>
          respBlocks := respBlocks + [block];
          failed := None;
      }
    }

    /** A whole header block: HPACK first, so its table stays in step, then the stream it is for. */
    method DecodeBlock(fromClient: bool, id: nat, block: seq<byte>, endStream: bool)
      returns (failed: Option<Reason>, out: Output)
      requires Disjoint(Tabs())
      modifies this
      ensures unchanged(`prefaceBuf, `prefaceSeen, `disabled)
      ensures Handled(env, old(Tabs()), Decode(env, old(Asm()), fromClient, id, block, endStream), failed, out, Now())
    {
      failed, out := None, Nothing;
      var fields;
      match env.hpack((if fromClient then reqBlocks else respBlocks) + [block]) {
        case TableSizeExceeded =>
          return Some(HpackTableSizeExceeded), Nothing;
        case DecodeFailed =>
          return Some(HpackDecodeFailed), Nothing;
        case Headers(decoded) =>
          fields := decoded;
      }
      if fromClient {
        reqBlocks := reqBlocks + [block];
      } else {
        respBlocks := respBlocks + [block];
      }
      out := ApplyBlock(fromClient, id, endStream, fields);
    }

    /** A decoded header block, for a stream that was not reset. */
    method ApplyBlock(fromClient: bool, id: nat, endStream: bool, fields: seq<Field>) returns (out: Output)
      requires Disjoint(Tabs())
      modifies this`streams, this`orphans, this`firstRequest
      ensures (Tabs(), out) == ApplyEvent(env, old(Tabs()), Block(fromClient, id, endStream, fields))
    {
      out := Nothing;
      ghost var e := Block(fromClient, id, endStream, fields);
      if id in reset {
        return;
      }
      ghost var t := Tabs();
      if fromClient && firstRequest == 0 {
        firstRequest := id;
      }
      ghost var t1 := Tabs();
      var orphan := Stream(id);
      var st := if orphan then orphans[id] else streams[id];
      StoreTwice(t1, id, st, ContentStep(env, st, e));
      if fromClient {
        st := st.(requestSeen := true);
      }
      st := ReadFields(st, fromClient, fields);
      Put(orphan, id, st);
      ContentThenEnd(env, t, e);
      if endStream {
        out := MarkEnded(fromClient, id);
      }
    }

    method ReadFields(entry: StreamState, fromClient: bool, fields: seq<Field>) returns (st: StreamState)
      ensures st == ApplyFields(env, entry, fromClient, fields)
    {
      st := entry;
      for i := 0 to |fields|
        invariant st == ApplyFields(env, entry, fromClient, fields[..i])
      {
        var (name, value) := fields[i];
        assert fields[..i + 1][..i] == fields[..i];
        match NameOf(name) {
          case Method => st := st.(method_ := Some(value));
          case Path => st := st.(path := Some(value));
          case Status => st := st.(status := env.parseStatus(value));
          case ContentType =>
            if fromClient {
              st := st.(reqContentType := Some(value));
            } else {
              st := st.(respContentType := Some(value));
            }
          case ContentEncoding =>
            if !fromClient {
              st := st.(respContentEncoding := Some(value));
            }
          case GrpcStatus => st := st.(grpcStatus := env.parseGrpcStatus(value));
          case GrpcMessage => st := st.(grpcMessage := Some(value));
          case Unread =>
        }
      }
      assert fields[..|fields|] == fields;
    }

    method OnData(fromClient: bool, f: Frame) returns (out: Output)
      requires Disjoint(Tabs())
      modifies this`streams, this`orphans
      ensures match Content(f, 0)
              case None => Tabs() == old(Tabs()) && out == Nothing
              case Some(body) =>
                (Tabs(), out) ==
                ApplyEvent(env, old(Tabs()), Data(fromClient, f.streamId, HasFlag(f.flags, END_STREAM), body))
    {
      hide HasFlag, Content, EntryStep, TransactionOf, End;
      out := Nothing;
      var id := f.streamId;
      var content := Payload(f, 0);
      if content.None? {
        return;
      }
      var body := content.value;
      ghost var e := Data(fromClient, id, HasFlag(f.flags, END_STREAM), body);
      if id in reset {
        return;
      }
      ghost var t := Tabs();
      var orphan := Stream(id);
      var st := if orphan then orphans[id] else streams[id];
      StoreTwice(t, id, st, ContentStep(env, st, e));
      var cap := env.capFor(if fromClient then st.reqContentType else st.respContentType);
      var held := if fromClient then st.reqBody else st.respBody;
      var room := if |held| <= cap then cap - |held| else 0;
      var cut := |body| > room;
      var grown := held + (if cut then body[..room] else body);
      if fromClient {
        st := st.(reqBody := grown, reqTruncated := st.reqTruncated || cut);
      } else {
        st := st.(respBody := grown, respTruncated := st.respTruncated || cut);
      }
      Put(orphan, id, st);
      assert st == ContentStep(env, Lookup(t, id), e);
      ContentThenEnd(env, t, e);
      if HasFlag(f.flags, END_STREAM) {
        out := MarkEnded(fromClient, id);
      }
    }

    method MarkEnded(fromClient: bool, id: nat) returns (out: Output)
      requires streams.Keys !! orphans.Keys
      modifies this`streams, this`orphans
      ensures (Tabs(), out) == End(old(Tabs()), fromClient, id)
    {
      ghost var t := Tabs();
      var announced := [];
      var orphan := Stream(id);
      var st := if orphan then orphans[id] else streams[id];
      StoreTwice(t, id, st, st.(respEnded := true));
      StoreTwice(t, id, st, st.(reqEnded := true));
      assert st == Lookup(t, id);
      if fromClient {
        if !st.reqEnded {
          st := st.(reqEnded := true);
          announced := [id];
        }
      } else {
        st := st.(respEnded := true);
      }
      Put(orphan, id, st);
      assert Tabs() == Store(t, id, st);
      out := Output(announced, []);
      if st.respEnded {
        if id in streams {
          st := streams[id];
          streams := streams - {id};
        } else {
          orphans := orphans - {id};
        }
        assert Tabs() == Drop(Store(t, id, st), id);
        out := Output(announced, [TransactionOf(id, st)]);
      }
    }
  }
}
