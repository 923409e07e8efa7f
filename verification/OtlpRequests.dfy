/** The splitter as it runs: request bodies pushed one by one into the requests under construction. */
module OtlpRequests {
  import opened Bytes
  import opened Options
  import opened OtlpSpan
  import opened OtlpSplit

  class Requests {
    var bodies: seq<seq<byte>>
    var droppedSpans: nat
    var payloadDroppedSpans: nat
    /** How many times a request was encoded and measured. */
    ghost var attempts: nat

    constructor ()
      ensures Counts() == NoTally
    {
      bodies, droppedSpans, payloadDroppedSpans, attempts := [], 0, 0, 0;
    }

    ghost function Counts(): Tally
      reads this
    {
      Tally(bodies, droppedSpans, payloadDroppedSpans, attempts)
    }

    /** One scope's spans. All or nothing on a codec error; otherwise exactly the requests, in order. */
    method Emit(codec: Codec, t: Template, spans: seq<SpanData>, cap: nat, compress: bool) returns (ok: bool)
      modifies this
      ensures Outcome(old(Counts()), Place(t, spans), OtlpSplit.Emit(codec, t, spans, cap, compress), ok, Counts())
      decreases |spans|, 0, 0
    {
      if spans == [] {
        assert bodies + [] == bodies;
        return true;
      }
      attempts := attempts + 1;
      match Fit(codec, t.Around(spans), cap, compress) {
        case Failed =>
          return false;
        case Fits(body) =>
          bodies := bodies + [body];
          SentRemain(Place(t, spans));
          assert Bodies([Piece(t.Around(spans), body)]) == [body];
          return true;
        case Over(size) =>
          if |spans| == 1 {
            assert spans == [spans[0]];
            ok := EmitAlone(codec, t, spans[0], cap, compress);
          } else {
            ChunkShrinks(size, cap, |spans|);
            ok := EmitRest(codec, t, spans, ChunkSize(size, cap, |spans|), cap, compress);
          }
      }
    }

    /** A span too large alone: sent without its payload, or counted as lost. */
    method EmitAlone(codec: Codec, t: Template, span: SpanData, cap: nat, compress: bool) returns (ok: bool)
      modifies this
      ensures Outcome(old(Counts()), Place(t, [span]), Uncounted(EmitBare(codec, t, span, cap, compress)), ok, Counts())
    {
      var bare := new OtlpSpan(span);
      var removed := bare.DropPayloadAttributes();
      DroppingHolds(span);
      var req := t.Around([SpanData(bare.attributes, bare.events, bare.links, bare.rest)]);
      assert req == t.Around([DropPayload(span).0]);
      SingleTally(t, span, Trimmed);
      SingleTally(t, span, Dropped);
      attempts := attempts + 1;
      match Fit(codec, req, cap, compress) {
        case Failed =>
          return false;
        case Fits(body) =>
          bodies := bodies + [body];
          assert Bodies([Piece(req, body)]) == [body];
          if removed {
            payloadDroppedSpans := payloadDroppedSpans + 1;
          }
        case Over(_) =>
          droppedSpans := droppedSpans + 1;
          assert bodies + Bodies([]) == bodies;
      }
      return true;
    }

    method EmitRest(codec: Codec, t: Template, spans: seq<SpanData>, chunk: nat, cap: nat, compress: bool)
      returns (ok: bool)
      requires 1 <= chunk
      modifies this
      ensures Outcome(old(Counts()), Place(t, spans), EmitChunks(codec, t, spans, chunk, cap, compress), ok, Counts())
      decreases chunk, 1, |spans|
    {
      hide EmitChunks, OtlpSplit.Emit, Adds, Place, Prepend;
      var rest := spans;
      ghost var done := Empty;
      ghost var placed := [];
      NothingYet(Counts());
      ChunksFollow(codec, t, spans, chunk, cap, compress);
      while rest != []
        invariant Place(t, spans) == placed + Place(t, rest)
        invariant Adds(old(Counts()), placed, done, Counts())
        invariant EmitChunks(codec, t, spans, chunk, cap, compress) ==
                  Prepend(done, EmitChunks(codec, t, rest, chunk, cap, compress))
        decreases |rest|
      {
        var n := Min(chunk, |rest|);
        ghost var here := OtlpSplit.Emit(codec, t, rest[..n], cap, compress);
        ghost var before := Counts();
        NextChunk(codec, t, rest, chunk, cap, compress, done);
        ok := Emit(codec, t, rest[..n], cap, compress);
        if !ok {
          return false;
        }
        TallyConcat(old(Counts()), placed, done, before, Place(t, rest[..n]), here.value, Counts());
        Assoc(placed, Place(t, rest[..n]), Place(t, rest[n..]));
        done := done.Then(here.value);
        placed := placed + Place(t, rest[..n]);
        rest := rest[n..];
      }
      NoMoreChunks(codec, t, chunk, cap, compress, placed);
      PrependEmpty(done);
      return true;
    }
  }

  lemma NothingYet(here: Tally)
    ensures Adds(here, [], Empty, here)
  {
    assert here.bodies + Bodies([]) == here.bodies;
  }

  lemma NoMoreChunks(codec: Codec, t: Template, chunk: nat, cap: nat, compress: bool, placed: seq<Placed>)
    requires 1 <= chunk
    ensures EmitChunks(codec, t, [], chunk, cap, compress) == Some(Empty)
    ensures placed + Place(t, []) == placed
  {
  }

  /** The next chunk's log comes next, and its spans next in order. */
  lemma NextChunk(codec: Codec, t: Template, rest: seq<SpanData>, chunk: nat, cap: nat, compress: bool, done: Log)
    requires 1 <= chunk && rest != []
    ensures var n := Min(chunk, |rest|);
            && 1 <= n && Place(t, rest) == Place(t, rest[..n]) + Place(t, rest[n..])
            && Prepend(done, EmitChunks(codec, t, rest, chunk, cap, compress)) ==
               match OtlpSplit.Emit(codec, t, rest[..n], cap, compress) {
                 case None => None
                 case Some(here) => Prepend(done.Then(here), EmitChunks(codec, t, rest[n..], chunk, cap, compress))
               }
  {
    var n := Min(chunk, |rest|);
    assert rest[..n] + rest[n..] == rest;
    PlaceConcat(t, rest[..n], rest[n..]);
    hide Place, OtlpSplit.Emit;
    var here := OtlpSplit.Emit(codec, t, rest[..n], cap, compress);
    if here.Some? {
      PrependThen(done, here.value, EmitChunks(codec, t, rest[n..], chunk, cap, compress));
    }
  }

  datatype Tally = Tally(bodies: seq<seq<byte>>, dropped: nat, payloads: nat, attempts: nat)

  const NoTally := Tally([], 0, 0, 0)

  /** `after` is `before` and what `log`, made from `input`, adds to it. */
  ghost predicate Adds(before: Tally, input: seq<Placed>, log: Log, after: Tally) {
    && |log.fates| == |input|
    && after.bodies == before.bodies + Bodies(log.pieces)
    && after.dropped == before.dropped + Count(log.fates, Dropped)
    && after.payloads == before.payloads + PayloadsDropped(input, log.fates)
    && after.attempts == before.attempts + log.calls
  }

  ghost predicate Outcome(before: Tally, input: seq<Placed>, expected: Option<Log>, ok: bool, after: Tally) {
    ok == expected.Some? && (ok ==> Adds(before, input, expected.value, after))
  }

  /** A log less the attempt that came before it. */
  function Uncounted(log: Option<Log>): Option<Log> {
    match log
    case None => None
    case Some(l) => Some(l.(calls := if l.calls == 0 then 0 else l.calls - 1))
  }

  function Prepend(done: Log, rest: Option<Log>): Option<Log> {
    match rest
    case None => None
    case Some(log) => Some(done.Then(log))
  }

  lemma ThenEmpty(log: Log)
    ensures log.Then(Empty) == log && Empty.Then(log) == log
  {
  }

  lemma PrependEmpty(done: Log)
    ensures Prepend(done, Some(Empty)) == Some(done)
  {
    ThenEmpty(done);
  }

  lemma ChunksFollow(codec: Codec, t: Template, spans: seq<SpanData>, chunk: nat, cap: nat, compress: bool)
    requires 1 <= chunk
    ensures var r := EmitChunks(codec, t, spans, chunk, cap, compress); r == Prepend(Empty, r)
    ensures [] + Place(t, spans) == Place(t, spans)
  {
    hide EmitChunks;
    var r := EmitChunks(codec, t, spans, chunk, cap, compress);
    if r.Some? {
      ThenEmpty(r.value);
    }
  }

  lemma PrependThen(done: Log, here: Log, rest: Option<Log>)
    ensures Prepend(done, Prepend(here, rest)) == Prepend(done.Then(here), rest)
  {
    if rest.Some? {
      Assoc(done.pieces, here.pieces, rest.value.pieces);
      Assoc(done.fates, here.fates, rest.value.fates);
    }
  }

  lemma BodiesConcat(a: seq<Piece>, b: seq<Piece>)
    ensures Bodies(a + b) == Bodies(a) + Bodies(b)
  {
  }

  lemma TallyConcat(before: Tally, a: seq<Placed>, l: Log, mid: Tally, b: seq<Placed>, m: Log, after: Tally)
    requires Adds(before, a, l, mid) && Adds(mid, b, m, after)
    ensures Adds(before, a + b, l.Then(m), after)
  {
    hide Bodies, Count, PayloadsDropped, Remaining;
    BodiesConcat(l.pieces, m.pieces);
    CountConcat(l.fates, m.fates, Dropped);
    RemainingConcat(a, b, l.fates, m.fates);
  }

  lemma SingleTally(t: Template, span: SpanData, fate: Fate)
    ensures Count([fate], Dropped) == (if fate.Dropped? then 1 else 0)
    ensures PayloadsDropped(Place(t, [span]), [fate]) == if fate.Trimmed? && HasPayload(span) then 1 else 0
  {
    var input := Place(t, [span]);
    assert input == [Placed(t, span)] && [fate][1..] == [] && input[1..] == [];
    assert PayloadsDropped(input[1..], [fate][1..]) == 0;
  }

  /** An export as the request bodies that will be posted; `None` on a codec error. */
  method EncodeRequests(codec: Codec, req: Request, cap: nat, compress: bool) returns (out: Requests, ok: bool)
    ensures fresh(out)
    ensures Outcome(NoTally, Contents(req), EmitBatches(codec, Batches(req), cap, compress), ok, out.Counts())
  {
    hide EmitBatches, OtlpSplit.Emit, Adds, Place, PlaceBatches, Prepend, Batches;
    out := new Requests();
    var batches := Batches(req);
    ghost var done, placed, rest := Empty, [], batches;
    var i := 0;
    NothingYet(NoTally);
    StartBatches(codec, batches, cap, compress);
    while i < |batches|
      invariant 0 <= i <= |batches| && fresh(out) && rest == batches[i..]
      invariant PlaceBatches(batches) == placed + PlaceBatches(rest)
      invariant Adds(NoTally, placed, done, out.Counts())
      invariant EmitBatches(codec, batches, cap, compress) == Prepend(done, EmitBatches(codec, rest, cap, compress))
    {
      var b := batches[i];
      assert rest[0] == b && rest[1..] == batches[i + 1..];
      ghost var here := OtlpSplit.Emit(codec, b.template, b.spans, cap, compress);
      ghost var before := out.Counts();
      NextBatch(codec, rest, cap, compress, done);
      ok := out.Emit(codec, b.template, b.spans, cap, compress);
      if !ok {
        return;
      }
      TallyConcat(NoTally, placed, done, before, Place(b.template, b.spans), here.value, out.Counts());
      Assoc(placed, Place(b.template, b.spans), PlaceBatches(rest[1..]));
      done := done.Then(here.value);
      placed := placed + Place(b.template, b.spans);
      rest := rest[1..];
      i := i + 1;
    }
    NoMoreBatches(codec, rest, cap, compress, placed);
    PrependEmpty(done);
    ok := true;
  }

  lemma NextBatch(codec: Codec, rest: seq<Batch>, cap: nat, compress: bool, done: Log)
    requires rest != []
    ensures var b := rest[0];
            && PlaceBatches(rest) == Place(b.template, b.spans) + PlaceBatches(rest[1..])
            && Prepend(done, EmitBatches(codec, rest, cap, compress)) ==
               match OtlpSplit.Emit(codec, b.template, b.spans, cap, compress) {
                 case None => None
                 case Some(here) => Prepend(done.Then(here), EmitBatches(codec, rest[1..], cap, compress))
               }
  {
    hide OtlpSplit.Emit;
    var b := rest[0];
    var here := OtlpSplit.Emit(codec, b.template, b.spans, cap, compress);
    if here.Some? {
      PrependThen(done, here.value, EmitBatches(codec, rest[1..], cap, compress));
    }
  }

  lemma NoMoreBatches(codec: Codec, rest: seq<Batch>, cap: nat, compress: bool, placed: seq<Placed>)
    requires rest == []
    ensures EmitBatches(codec, rest, cap, compress) == Some(Empty)
    ensures placed + PlaceBatches(rest) == placed
  {
  }

  lemma StartBatches(codec: Codec, batches: seq<Batch>, cap: nat, compress: bool)
    ensures var r := EmitBatches(codec, batches, cap, compress); r == Prepend(Empty, r)
    ensures [] + PlaceBatches(batches) == PlaceBatches(batches)
  {
    hide EmitBatches, PlaceBatches;
    var r := EmitBatches(codec, batches, cap, compress);
    if r.Some? {
      ThenEmpty(r.value);
    }
  }
}
