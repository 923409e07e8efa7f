/** From frames to events: padding, header-block assembly and HPACK (sections 6.1, 6.2, 6.6 and 6.10 of RFC 9113). */
module Http2Headers {
  import opened Bytes
  import opened Options
  import opened Http2Frames
  import opened Http2Streams

  const DATA: byte := 0
  const HEADERS: byte := 1
  const RST_STREAM: byte := 3
  const PUSH_PROMISE: byte := 5
  const CONTINUATION: byte := 9

  const END_STREAM := 1
  const END_HEADERS := 4
  const PADDED := 8
  const PRIORITY := 32

  /** Why a connection's capture stopped for good. */
  datatype Reason =
    | FrameMalformed
    | StreamBufferExceeded
    | ContinuationWithoutHeaders
    | PushPromiseUnsynced
    | HpackTableSizeExceeded
    | HpackDecodeFailed

  /** A header block a HEADERS frame opened, awaiting its CONTINUATION frames. */
  datatype Pending = Pending(fromClient: bool, endStream: bool, buf: seq<byte>)

  datatype Assembler = Assembler(
    // Keyed by stream id alone, whichever side opened the block.
    pending: map<nat, Pending>,
    pendingBytes: int,
    // The blocks each direction's HPACK decoder has accepted.
    reqBlocks: seq<seq<byte>>,
    respBlocks: seq<seq<byte>>)

  const EmptyAssembler := Assembler(map[], 0, [], [])

  datatype Assembled = Failed(reason: Reason) | Ready(asm: Assembler, event: Event)

  /** A payload without its pad-length byte, and how much padding ends it. */
  function Unpad(f: Frame): Option<(seq<byte>, nat)> {
    if !HasFlag(f.flags, PADDED) then Some((f.payload, 0))
    else if f.payload == [] then None
    else Some((f.payload[1..], f.payload[0]))
  }

  /** The payload between the pad-length byte, `skip` fixed bytes and the padding; `None` when they overlap. */
  function Content(f: Frame, skip: nat): Option<seq<byte>> {
    match Unpad(f)
    case None => None
    case Some((payload, pad)) =>
      if |payload| < skip || |payload| - skip < pad then None else Some(payload[skip..|payload| - pad])
  }

  function HeadersSkip(f: Frame): nat {
    if HasFlag(f.flags, PRIORITY) then 5 else 0
  }

  function Decode(env: Env, a: Assembler, fromClient: bool, id: nat, block: seq<byte>, endStream: bool): Assembled {
    match env.hpack((if fromClient then a.reqBlocks else a.respBlocks) + [block])
    case TableSizeExceeded => Failed(HpackTableSizeExceeded)
    case DecodeFailed => Failed(HpackDecodeFailed)
    case Headers(fields) => Ready(Fed(a, fromClient, block), Block(fromClient, id, endStream, fields))
  }

  function Fed(a: Assembler, fromClient: bool, block: seq<byte>): Assembler {
    if fromClient then a.(reqBlocks := a.reqBlocks + [block]) else a.(respBlocks := a.respBlocks + [block])
  }

  /** The assembler without the block open on `id`, if there is one. */
  function Forget(a: Assembler, id: nat): Assembler {
    if id in a.pending then
      a.(pending := a.pending - {id}, pendingBytes := a.pendingBytes - |a.pending[id].buf|)
    else a
  }

  /** The assembler with `p` open on `id`, replacing what was. */
  function Hold(a: Assembler, id: nat, p: Pending): Assembler {
    var a1 := Forget(a, id);
    a1.(pending := a.pending[id := p], pendingBytes := a1.pendingBytes + |p.buf|)
  }

  function AssembleHeaders(env: Env, a: Assembler, fromClient: bool, f: Frame): Assembled {
    var endStream := HasFlag(f.flags, END_STREAM);
    match Content(f, HeadersSkip(f))
    case None => Failed(FrameMalformed)
    case Some(block) =>
      if HasFlag(f.flags, END_HEADERS) then Decode(env, a, fromClient, f.streamId, block, endStream)
      else
        var a1 := Hold(a, f.streamId, Pending(fromClient, endStream, block));
        if |a1.pending| > TableCap(env) || a1.pendingBytes > env.maxStreamBuffer then Failed(StreamBufferExceeded)
        else Ready(a1, Quiet)
  }

  function AssembleContinuation(env: Env, a: Assembler, f: Frame): Assembled {
    if f.streamId !in a.pending then Failed(ContinuationWithoutHeaders)
    else
      var p := a.pending[f.streamId];
      var a1 := Forget(a, f.streamId);
      var p1 := p.(buf := p.buf + f.payload);
      if a1.pendingBytes + |p1.buf| > env.maxStreamBuffer then Failed(StreamBufferExceeded)
      else if HasFlag(f.flags, END_HEADERS) then Decode(env, a1, p1.fromClient, f.streamId, p1.buf, p1.endStream)
      else Ready(Hold(a1, f.streamId, p1), Quiet)
  }

  /** A push promise only keeps the response decoder in step. */
  function AssemblePush(env: Env, a: Assembler, f: Frame): Assembled {
    match Content(f, 4)
    case None => Failed(FrameMalformed)
    case Some(block) =>
      if !HasFlag(f.flags, END_HEADERS) then Failed(PushPromiseUnsynced)
      else
        match Decode(env, a, false, f.streamId, block, false)
        case Failed(r) => Failed(r)
        case Ready(a1, _) => Ready(a1, Quiet)
  }

  /** What one frame becomes. It never depends on the stream tables. */
  function Assemble(env: Env, a: Assembler, fromClient: bool, f: Frame): Assembled {
    if f.frameType == HEADERS then AssembleHeaders(env, a, fromClient, f)
    else if f.frameType == CONTINUATION then AssembleContinuation(env, a, f)
    else if f.frameType == DATA then
      match Content(f, 0)
      case None => Ready(a, Quiet)
      case Some(body) => Ready(a, Data(fromClient, f.streamId, HasFlag(f.flags, END_STREAM), body))
    else if f.frameType == PUSH_PROMISE then AssemblePush(env, a, f)
    else if f.frameType == RST_STREAM then Ready(Forget(a, f.streamId), Reset(f.streamId))
    else Ready(a, Quiet)
  }

  // ---- Byte accounting ----

  /** Bytes held by all open header blocks. */
  function OpenBytes(m: map<nat, Pending>): nat
    decreases |m|
  {
    if m == map[] then 0
    else
      var id := Lowest(m.Keys);
      Shrinks(m, id);
      |m[id].buf| + OpenBytes(m - {id})
  }

  /** Any one block can be taken out of the sum, not just the lowest. */
  lemma {:induction false} OpenBytesWithout(m: map<nat, Pending>, id: nat)
    requires id in m
    ensures OpenBytes(m) == |m[id].buf| + OpenBytes(m - {id})
    decreases |m|
  {
    var low := Lowest(m.Keys);
    if low != id {
      Shrinks(m, low);
      OpenBytesWithout(m - {low}, id);
      assert low in m - {id};
      assert Lowest((m - {id}).Keys) == low;
      assert m - {low} - {id} == m - {id} - {low};
    }
  }

  ghost predicate Accounted(a: Assembler) {
    a.pendingBytes == OpenBytes(a.pending)
  }

  ghost predicate Held(env: Env, a: Assembler) {
    Accounted(a) && |a.pending| <= TableCap(env) && a.pendingBytes <= env.maxStreamBuffer
  }

  lemma ForgetKeeps(a: Assembler, id: nat)
    requires Accounted(a)
    ensures Accounted(Forget(a, id)) && 0 <= Forget(a, id).pendingBytes <= a.pendingBytes
    ensures Forget(a, id).pending == a.pending - {id}
    ensures |Forget(a, id).pending| <= |a.pending|
  {
    if id in a.pending {
      OpenBytesWithout(a.pending, id);
      Shrinks(a.pending, id);
    } else {
      assert a.pending - {id} == a.pending;
    }
  }

  lemma HoldKeeps(a: Assembler, id: nat, p: Pending)
    requires Accounted(a)
    ensures Accounted(Hold(a, id, p))
    ensures Hold(a, id, p).pendingBytes == Forget(a, id).pendingBytes + |p.buf|
    ensures |Hold(a, id, p).pending| == |a.pending| + (if id in a.pending then 0 else 1)
  {
    ForgetKeeps(a, id);
    var m := a.pending[id := p];
    OpenBytesWithout(m, id);
    assert m - {id} == a.pending - {id};
    assert m.Keys == a.pending.Keys + {id};
    assert |m| == |m.Keys| && |a.pending| == |a.pending.Keys|;
  }

  lemma HeadersKeep(env: Env, a: Assembler, fromClient: bool, f: Frame)
    requires Held(env, a)
    ensures var r := AssembleHeaders(env, a, fromClient, f); r.Ready? ==> Held(env, r.asm)
  {
    match Content(f, HeadersSkip(f))
    case None =>
    case Some(block) => HoldKeeps(a, f.streamId, Pending(fromClient, HasFlag(f.flags, END_STREAM), block));
  }

  lemma ContinuationKeeps(env: Env, a: Assembler, f: Frame)
    requires Held(env, a)
    ensures var r := AssembleContinuation(env, a, f); r.Ready? ==> Held(env, r.asm)
  {
    if f.streamId in a.pending {
      var p := a.pending[f.streamId];
      ForgetKeeps(a, f.streamId);
      var a1 := Forget(a, f.streamId);
      HoldKeeps(a1, f.streamId, p.(buf := p.buf + f.payload));
      Shrinks(a.pending, f.streamId);
    }
  }

  lemma PushKeeps(env: Env, a: Assembler, f: Frame)
    requires Held(env, a)
    ensures var r := AssemblePush(env, a, f); r.Ready? ==> Held(env, r.asm)
  {
  }

  /**
   The byte count is always the sum of the open blocks, it never underflows, and both the number of
   blocks and their bytes stay within their bounds after every frame that does not latch.
   */
  lemma AssembleKeeps(env: Env, a: Assembler, fromClient: bool, f: Frame)
    requires Held(env, a)
    ensures var r := Assemble(env, a, fromClient, f); r.Ready? ==> Held(env, r.asm)
    ensures 0 <= Forget(a, f.streamId).pendingBytes
  {
    ForgetKeeps(a, f.streamId);
    HeadersKeep(env, a, fromClient, f);
    ContinuationKeeps(env, a, f);
    PushKeeps(env, a, f);
  }
}
