/** From bytes to report: a conversation written out as frames, read in any pieces, is told stream by stream. */
module Http2Conversation {
  import opened Bytes
  import opened Options
  import opened Http2Frames
  import opened Http2Streams
  import opened Http2Headers
  import opened Http2Feed
  import opened Http2Transactions
  import opened Http2Reports

  /** What one side sends: a header block in one fragment or more, DATA, a reset, or a frame nobody tracks. */
  datatype Part =
    | HeaderPart(fromClient: bool, id: nat, endStream: bool, fields: seq<Field>, first: seq<byte>,
                 more: seq<seq<byte>>, pad: Option<seq<byte>>, priority: Option<seq<byte>>)
    | DataPart(fromClient: bool, id: nat, endStream: bool, body: seq<byte>, pad: Option<seq<byte>>)
    | ResetPart(fromClient: bool, id: nat, code: seq<byte>)
    | OtherPart(fromClient: bool, frame: Frame)

  function Means(p: Part): Event {
    match p
    case HeaderPart(fromClient, id, endStream, fields, _, _, _, _) => Block(fromClient, id, endStream, fields)
    case DataPart(fromClient, id, endStream, body, _) => Data(fromClient, id, endStream, body)
    case ResetPart(_, id, _) => Reset(id)
    case OtherPart(_, _) => Quiet
  }

  function Said(ps: seq<Part>): (r: seq<Event>)
    ensures |r| == |ps|
  {
    seq(|ps|, i requires 0 <= i < |ps| => Means(ps[i]))
  }

  // ---- Written as frames (sections 6.1, 6.2 and 6.10 of RFC 9113) ----

  function Flags(endStream: bool, endHeaders: bool, padded: bool, priority: bool): byte {
    (if endStream then 1 else 0) + (if endHeaders then 4 else 0) + (if padded then 8 else 0)
    + (if priority then 32 else 0)
  }

  /** A pad length, the body, and the padding; or the body alone. */
  function Padded(pad: Option<seq<byte>>, body: seq<byte>): seq<byte>
    requires pad.Some? ==> |pad.value| < 256
  {
    match pad
    case None => body
    case Some(p) => [|p|] + (body + p)
  }

  function Continuations(id: nat, more: seq<seq<byte>>): seq<Frame> {
    if more == [] then []
    else [Frame(CONTINUATION, Flags(false, |more| == 1, false, false), id, more[0])] + Continuations(id, more[1..])
  }

  function Written(p: Part): seq<Frame>
    requires !p.OtherPart? && !p.ResetPart? && p.pad.Some? ==> |p.pad.value| < 256
  {
    match p
    case HeaderPart(_, id, endStream, _, first, more, pad, priority) =>
      [Frame(HEADERS, Flags(endStream, more == [], pad.Some?, priority.Some?), id,
             Padded(pad, GetOr(priority, []) + first))]
      + Continuations(id, more)
    case DataPart(_, id, endStream, body, pad) =>
      [Frame(DATA, Flags(endStream, false, pad.Some?, false), id, Padded(pad, body))]
    case ResetPart(_, id, code) => [Frame(RST_STREAM, 0, id, code)]
    case OtherPart(_, frame) => [frame]
  }

  function WholeBlock(p: Part): seq<byte>
    requires p.HeaderPart?
  {
    p.first + Flatten(p.more)
  }

  predicate Untracked(f: Frame) {
    f.frameType != HEADERS && f.frameType != CONTINUATION && f.frameType != DATA
    && f.frameType != PUSH_PROMISE && f.frameType != RST_STREAM
  }

  /** Padding and priority as the frame format has them, frames within its sizes, and a block that is continued
      within the stream buffer. */
  ghost predicate PartOk(env: Env, p: Part) {
    && (p.HeaderPart? || p.DataPart? ==> p.pad.Some? ==> |p.pad.value| < 256)
    && (p.HeaderPart? ==> (p.priority.Some? ==> |p.priority.value| == 5)
                          && (p.more != [] ==> |WholeBlock(p)| <= env.maxStreamBuffer))
    && (p.OtherPart? ==> Untracked(p.frame))
    && forall f :: f in Written(p) ==> WireSized(f)
  }

  /** HPACK gives each header block, in its own direction's order, the fields its sender meant. */
  ghost predicate DecodesTo(env: Env, ps: seq<Part>, req: seq<seq<byte>>, resp: seq<seq<byte>>)
    decreases |ps|
  {
    ps == [] ||
    if !ps[0].HeaderPart? then DecodesTo(env, ps[1..], req, resp)
    else
      var block := WholeBlock(ps[0]);
      if ps[0].fromClient then
        env.hpack(req + [block]) == Headers(ps[0].fields) && DecodesTo(env, ps[1..], req + [block], resp)
      else
        env.hpack(resp + [block]) == Headers(ps[0].fields) && DecodesTo(env, ps[1..], req, resp + [block])
  }

  // ---- Read back ----

  lemma FlagsRead(endStream: bool, endHeaders: bool, padded: bool, priority: bool)
    ensures var f := Flags(endStream, endHeaders, padded, priority);
      && HasFlag(f, END_STREAM) == endStream && HasFlag(f, END_HEADERS) == endHeaders
      && HasFlag(f, PADDED) == padded && HasFlag(f, PRIORITY) == priority
  {
  }

  lemma PaddedReads(f: Frame, pad: Option<seq<byte>>, skipped: seq<byte>, body: seq<byte>)
    requires pad.Some? ==> |pad.value| < 256
    requires HasFlag(f.flags, PADDED) == pad.Some? && f.payload == Padded(pad, skipped + body)
    ensures Content(f, |skipped|) == Some(body)
  {
    match pad
    case None => assert f.payload[|skipped|..|f.payload|] == body;
    case Some(p) =>
      var rest := f.payload[1..];
      assert rest == skipped + body + p;
      assert rest[|skipped|..|rest| - |p|] == body;
  }

  function Quiets(n: nat): (r: seq<Event>)
    ensures |r| == n && forall e :: e in r ==> e == Quiet
  {
    seq(n, _ => Quiet)
  }

  lemma OneEvent(env: Env, a: Assembler, side: bool, f: Frame)
    requires Assemble(env, a, side, f).Ready?
    ensures var r := Assemble(env, a, side, f); EventsOf(env, a, side, [f]) == (Some(r.asm), [r.event])
  {
    hide Assemble;
    var r := Assemble(env, a, side, f);
    assert [f][1..] == [] && [r.event] + [] == [r.event];
  }

  lemma EventCons(env: Env, a: Assembler, side: bool, f: Frame, fs: seq<Frame>)
    requires Assemble(env, a, side, f).Ready?
    ensures var r := Assemble(env, a, side, f);
      var (a2, es) := EventsOf(env, r.asm, side, fs);
      EventsOf(env, a, side, [f] + fs) == (a2, [r.event] + es)
  {
    hide Assemble;
    assert ([f] + fs)[1..] == fs;
  }

  /** The rest of a block, some of it held already: quiet until its last fragment, which decodes the whole. */
  lemma {:induction false} RestOfBlock(env: Env, side: bool, id: nat, endStream: bool, fields: seq<Field>,
      held: seq<byte>, more: seq<seq<byte>>, req: seq<seq<byte>>, resp: seq<seq<byte>>)
    requires more != [] && |held + Flatten(more)| <= env.maxStreamBuffer
    requires env.hpack((if side then req else resp) + [held + Flatten(more)]) == Headers(fields)
    ensures var block := held + Flatten(more);
      var a := Assembler(map[id := Pending(side, endStream, held)], |held|, req, resp);
      EventsOf(env, a, side, Continuations(id, more)) ==
        (Some(Assembler(map[], 0, if side then req + [block] else req, if side then resp else resp + [block])),
         Quiets(|more| - 1) + [Block(side, id, endStream, fields)])
    decreases |more|
  {
    hide HasFlag, EventsOf, Flags;
    var block := held + Flatten(more);
    var a := Assembler(map[id := Pending(side, endStream, held)], |held|, req, resp);
    var f := Frame(CONTINUATION, Flags(false, |more| == 1, false, false), id, more[0]);
    FlagsRead(false, |more| == 1, false, false);
    Assoc(held, more[0], Flatten(more[1..]));
    ForgetOnly(a, id);
    if |more| == 1 {
      assert Flatten(more[1..]) == [] && held + more[0] + [] == held + more[0];
      ContinuationEnds(env, a, side, id, endStream, fields, held, f, req, resp);
      OneEvent(env, a, side, f);
      assert Continuations(id, more) == [f] + Continuations(id, more[1..]) == [f];
      assert Quiets(0) + [Block(side, id, endStream, fields)] == [Block(side, id, endStream, fields)];
    } else {
      ContinuationHolds(env, a, side, id, endStream, held, f, req, resp);
      RestOfBlock(env, side, id, endStream, fields, held + more[0], more[1..], req, resp);
      EventCons(env, a, side, f, Continuations(id, more[1..]));
      var last := [Block(side, id, endStream, fields)];
      assert Quiets(|more| - 1) == [Quiet] + Quiets(|more| - 2);
      Assoc([Quiet], Quiets(|more| - 2), last);
    }
  }

  lemma ForgetOnly(a: Assembler, id: nat)
    requires a.pending.Keys == {id} && a.pendingBytes == |a.pending[id].buf|
    ensures Forget(a, id) == a.(pending := map[], pendingBytes := 0)
  {
    assert a.pending - {id} == map[];
  }

  lemma ContinuationEnds(env: Env, a: Assembler, side: bool, id: nat, endStream: bool, fields: seq<Field>,
      held: seq<byte>, f: Frame, req: seq<seq<byte>>, resp: seq<seq<byte>>)
    requires a == Assembler(map[id := Pending(side, endStream, held)], |held|, req, resp)
    requires f.frameType == CONTINUATION && f.streamId == id && HasFlag(f.flags, END_HEADERS)
    requires |held + f.payload| <= env.maxStreamBuffer
    requires env.hpack((if side then req else resp) + [held + f.payload]) == Headers(fields)
    ensures var block := held + f.payload;
      Assemble(env, a, side, f) ==
        Ready(Assembler(map[], 0, if side then req + [block] else req, if side then resp else resp + [block]),
              Block(side, id, endStream, fields))
  {
    hide HasFlag;
    ForgetOnly(a, id);
  }

  lemma ContinuationHolds(env: Env, a: Assembler, side: bool, id: nat, endStream: bool, held: seq<byte>, f: Frame,
      req: seq<seq<byte>>, resp: seq<seq<byte>>)
    requires a == Assembler(map[id := Pending(side, endStream, held)], |held|, req, resp)
    requires f.frameType == CONTINUATION && f.streamId == id && !HasFlag(f.flags, END_HEADERS)
    requires |held + f.payload| <= env.maxStreamBuffer
    ensures Assemble(env, a, side, f) ==
      Ready(Assembler(map[id := Pending(side, endStream, held + f.payload)], |held + f.payload|, req, resp), Quiet)
  {
    hide HasFlag;
    ForgetOnly(a, id);
    var a1 := Forget(a, id);
    var p := Pending(side, endStream, held + f.payload);
    assert map[][id := p] == map[id := p];
  }

  lemma HeadersOpen(env: Env, p: Part, f: Frame, req: seq<seq<byte>>, resp: seq<seq<byte>>)
    requires p.HeaderPart? && PartOk(env, p) && f == Written(p)[0]
    requires var side := p.fromClient;
      env.hpack((if side then req else resp) + [WholeBlock(p)]) == Headers(p.fields)
    ensures var side, block := p.fromClient, WholeBlock(p);
      Assemble(env, Assembler(map[], 0, req, resp), side, f) ==
        if p.more == [] then
          Ready(Assembler(map[], 0, if side then req + [block] else req, if side then resp else resp + [block]),
                Means(p))
        else
          Ready(Assembler(map[p.id := Pending(side, p.endStream, p.first)], |p.first|, req, resp), Quiet)
  {
    hide HasFlag, Content, Flags;
    FlagsRead(p.endStream, p.more == [], p.pad.Some?, p.priority.Some?);
    PaddedReads(f, p.pad, GetOr(p.priority, []), p.first);
    var a := Assembler(map[], 0, req, resp);
    assert p.first + [] == p.first;
    if p.more != [] {
      assert |map[p.id := Pending(p.fromClient, p.endStream, p.first)]| == 1 <= TableCap(env);
    }
  }

  /** What the frames of one part come to: some quiet ones, and what the part means. */
  lemma PartReads(env: Env, p: Part, req: seq<seq<byte>>, resp: seq<seq<byte>>) returns (n: nat)
    requires PartOk(env, p)
    requires p.HeaderPart? ==>
      env.hpack((if p.fromClient then req else resp) + [WholeBlock(p)]) == Headers(p.fields)
    ensures var a, side := Assembler(map[], 0, req, resp), p.fromClient;
      var (req1, resp1) := Decoded(p, req, resp);
      EventsOf(env, a, side, Written(p)) == (Some(Assembler(map[], 0, req1, resp1)), Quiets(n) + [Means(p)])
  {
    hide EventsOf, Content, HasFlag, Flags;
    var a, side := Assembler(map[], 0, req, resp), p.fromClient;
    n := 0;
    assert Quiets(0) + [Means(p)] == [Means(p)];
    match p {
      case HeaderPart(_, id, endStream, fields, first, more, _, _) =>
        var f := Written(p)[0];
        HeadersOpen(env, p, f, req, resp);
        if more == [] {
          assert Written(p) == [f] + [] == [f];
          OneEvent(env, a, side, f);
        } else {
          RestOfBlock(env, side, id, endStream, fields, first, more, req, resp);
          assert Written(p) == [f] + Continuations(id, more);
          EventCons(env, a, side, f, Continuations(id, more));
          n := |more|;
          assert Quiets(n) == [Quiet] + Quiets(n - 1);
          Assoc([Quiet], Quiets(n - 1), [Means(p)]);
        }
      case DataPart(_, _, endStream, body, pad) =>
        var f := Written(p)[0];
        FlagsRead(endStream, false, pad.Some?, false);
        assert [] + body == body;
        PaddedReads(f, pad, [], body);
        OneEvent(env, a, side, f);
      case ResetPart(_, _, _) =>
        OneEvent(env, a, side, Written(p)[0]);
      case OtherPart(_, frame) =>
        OneEvent(env, a, side, frame);
    }
  }

  /** The blocks each direction has decoded after a part. */
  function Decoded(p: Part, req: seq<seq<byte>>, resp: seq<seq<byte>>): (seq<seq<byte>>, seq<seq<byte>>) {
    if !p.HeaderPart? then (req, resp)
    else if p.fromClient then (req + [WholeBlock(p)], resp)
    else (req, resp + [WholeBlock(p)])
  }

  // ---- A whole connection ----

  /** One read for each part. */
  ghost function Reads(env: Env, ps: seq<Part>): seq<Read>
    requires forall p :: p in ps ==> PartOk(env, p)
  {
    if ps == [] then []
    else
      assert PartOk(env, ps[0]);
      [(ps[0].fromClient, EncodeFrames(Written(ps[0])))] + Reads(env, ps[1..])
  }

  const Framed := Carver(None, [], [])

  lemma CarvePart(side: bool, fs: seq<Frame>)
    requires forall f :: f in fs ==> WireSized(f)
    ensures Carve(Framed, side, EncodeFrames(fs)) == (Framed, fs)
  {
    var b := EncodeFrames(fs);
    CarveInvertsEncode(fs, []);
    assert b + [] == b && [] + b == b && fs + [] == fs;
    NoFrame([]);
  }

  lemma {:induction false} OnStreamConcat(es: seq<Event>, fs: seq<Event>, id: nat)
    ensures OnStream(es + fs, id) == OnStream(es, id) + OnStream(fs, id)
    decreases |fs|
  {
    if fs == [] {
      assert es + fs == es && OnStream(es, id) + [] == OnStream(es, id);
    } else {
      var all, front, e := es + fs, fs[..|fs| - 1], fs[|fs| - 1];
      assert all[..|all| - 1] == es + front && all[|all| - 1] == e;
      OnStreamConcat(es, front, id);
      Assoc(OnStream(es, id), OnStream(front, id), if On(e, id) then [e] else []);
    }
  }

  lemma {:induction false} QuietsAreNowhere(n: nat, id: nat)
    ensures OnStream(Quiets(n), id) == []
  {
    if n > 0 {
      assert Quiets(n)[..n - 1] == Quiets(n - 1);
      QuietsAreNowhere(n - 1, id);
    }
  }

  /** Two runs with the same events but for quiet ones. */
  ghost predicate SameTalk(es: seq<Event>, fs: seq<Event>) {
    && (forall id: nat :: OnStream(es, id) == OnStream(fs, id))
    && (forall e: Event :: !e.Quiet? ==> (e in es <==> e in fs))
  }

  lemma SameTalkThen(n: nat, e: Event, es: seq<Event>, fs: seq<Event>)
    requires SameTalk(es, fs)
    ensures SameTalk(Quiets(n) + [e] + es, [e] + fs)
  {
    hide OnStream;
    forall id: nat
      ensures OnStream(Quiets(n) + [e] + es, id) == OnStream([e] + fs, id)
    {
      QuietsAreNowhere(n, id);
      OnStreamConcat(Quiets(n) + [e], es, id);
      OnStreamConcat(Quiets(n), [e], id);
      OnStreamConcat([e], fs, id);
      assert [] + OnStream([e], id) == OnStream([e], id);
    }
  }

  lemma {:induction false} PartsRead(env: Env, ps: seq<Part>, req: seq<seq<byte>>, resp: seq<seq<byte>>)
    requires (forall p :: p in ps ==> PartOk(env, p)) && DecodesTo(env, ps, req, resp)
    ensures SameTalk(EventsOfReads(env, Framed, Assembler(map[], 0, req, resp), Reads(env, ps)), Said(ps))
    decreases |ps|
  {
    hide EventsOf, PartOk, Written, Means, SameTalk, Carve;
    var a := Assembler(map[], 0, req, resp);
    if ps == [] {
      SameNothing(Said(ps));
    } else {
      var p := ps[0];
      assert p in ps;
      PartIsSized(env, p);
      CarvePart(p.fromClient, Written(p));
      var n := PartReads(env, p, req, resp);
      var (req1, resp1) := Decoded(p, req, resp);
      PartsRead(env, ps[1..], req1, resp1);
      var later := EventsOfReads(env, Framed, Assembler(map[], 0, req1, resp1), Reads(env, ps[1..]));
      var turns := Reads(env, ps);
      assert turns[1..] == Reads(env, ps[1..]);
      SameTalkThen(n, Means(p), later, Said(ps[1..]));
      assert Said(ps) == [Means(p)] + Said(ps[1..]);
    }
  }

  lemma SameNothing(es: seq<Event>)
    requires es == []
    ensures SameTalk([], es)
  {
  }

  lemma PartIsSized(env: Env, p: Part)
    requires PartOk(env, p)
    ensures !p.OtherPart? && !p.ResetPart? && p.pad.Some? ==> |p.pad.value| < 256
    ensures forall f :: f in Written(p) ==> WireSized(f)
  {
  }

  lemma PrefaceIsStripped()
    ensures Carve(NewCarver, true, PREFACE) == (Framed, [])
  {
    PrefaceHasItsLength();
    assert [] + PREFACE == PREFACE && PREFACE[..PREFACE_LEN] == PREFACE && PREFACE[PREFACE_LEN..] == [];
    NoFrame([]);
    assert [] + PREFACE[PREFACE_LEN..] == [];
  }

  lemma ConnectionReads(env: Env, ps: seq<Part>)
    requires (forall p :: p in ps ==> PartOk(env, p)) && DecodesTo(env, ps, [], [])
    ensures SameTalk(EventsOfReads(env, NewCarver, EmptyAssembler, [(true, PREFACE)] + Reads(env, ps)), Said(ps))
  {
    hide Carve, PartOk, SameTalk;
    PrefaceIsStripped();
    var turns := [(true, PREFACE)] + Reads(env, ps);
    assert turns[1..] == Reads(env, ps);
    PartsRead(env, ps, [], []);
    var es := EventsOfReads(env, Framed, EmptyAssembler, Reads(env, ps));
    assert [] + es == es;
  }

  /**
   A conversation of any number of streams that fit the table, each header block padded, prioritised or
   continued or not, read in any pieces: the stream whose response ends is told in exactly one transaction,
   which says what both sides sent on it, and it is announced once if the client ended its side.
   */
  lemma ConversationIsReported(env: Env, ps: seq<Part>, inputs: seq<Read>, ids: set<nat>, id: nat)
    returns (tx: Transaction)
    requires (forall p :: p in ps ==> PartOk(env, p)) && DecodesTo(env, ps, [], [])
    requires Tagged(inputs) == Tagged([(true, PREFACE)] + Reads(env, ps))
    requires |ids| <= TableCap(env) && Within(Said(ps), ids) && NoReset(Said(ps), id)
    requires EndsLast(OnStream(Said(ps), id))
    ensures var out, hs := FeedAll(env, NewConn, inputs).1, OnStream(Said(ps), id);
      && TransactionsOn(out.transactions, id) == [tx] && Tells(env, id, hs, tx) && !tx.requestEvicted
      && Times(out.announced, id) == if ClientEnded(hs) then 1 else 0
  {
    hide FeedAll, Run, Tells, PartOk, EndsLast, OnStream, Reads, Said, DecodesTo, EventsOfReads;
    var turns := [(true, PREFACE)] + Reads(env, ps);
    var es := EventsOfReads(env, NewCarver, EmptyAssembler, turns);
    AnyCutting(env, inputs, turns);
    ConnectionIsAFold(env, NewCarver, NewCore, turns);
    ConnectionReads(env, ps);
    SameTalkBounds(es, Said(ps), ids, id);
    tx := StreamIsReported(env, es, ids, id);
  }

  lemma SameTalkBounds(es: seq<Event>, fs: seq<Event>, ids: set<nat>, id: nat)
    requires SameTalk(es, fs) && Within(fs, ids) && NoReset(fs, id)
    ensures Within(es, ids) && NoReset(es, id) && OnStream(es, id) == OnStream(fs, id)
  {
    hide OnStream;
  }
}
