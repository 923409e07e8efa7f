/** Splitting one export into the request bodies a receiver accepts. */
module OtlpSplit {
  import opened Bytes
  import opened Options
  import opened OtlpSpan

  datatype ScopeSpans = ScopeSpans(scope: seq<byte>, schemaUrl: seq<byte>, spans: seq<SpanData>)
  datatype ResourceSpans = ResourceSpans(resource: seq<byte>, schemaUrl: seq<byte>, scopeSpans: seq<ScopeSpans>)
  datatype Request = Request(resourceSpans: seq<ResourceSpans>)

  /** Everything about a request except which spans are in it. */
  datatype Template = Template(
    resource: seq<byte>,
    resourceSchemaUrl: seq<byte>,
    scope: seq<byte>,
    scopeSchemaUrl: seq<byte>)
  {
    function Around(spans: seq<SpanData>): Request {
      Request([ResourceSpans(resource, resourceSchemaUrl, [ScopeSpans(scope, scopeSchemaUrl, spans)])])
    }
  }

  /** The serialiser and the compressor, which may fail. */
  datatype Codec = Codec(encode: Request -> seq<byte>, gzip: seq<byte> -> Option<seq<byte>>)

  // ---- One attempt ----

  datatype Attempt = Fits(body: seq<byte>) | Over(size: nat) | Failed

  /** Both the message and the body are held to the cap; an oversized message is never compressed. */
  function Fit(codec: Codec, req: Request, cap: nat, compress: bool): Attempt {
    var bytes := codec.encode(req);
    if |bytes| > cap then Over(|bytes|)
    else if !compress then Fits(bytes)
    else
      match codec.gzip(bytes)
      case None => Failed
      case Some(body) => if |body| > cap then Over(|body|) else Fits(body)
  }

  // ---- What becomes of the spans ----

  datatype Fate =
    | Sent
    // Sent without its payload, if it had one to remove.
    | Trimmed
    | Dropped

  datatype Piece = Piece(request: Request, body: seq<byte>)

  datatype Log = Log(pieces: seq<Piece>, fates: seq<Fate>, calls: nat) {
    function Then(next: Log): Log {
      Log(pieces + next.pieces, fates + next.fates, calls + next.calls)
    }
  }

  const Empty := Log([], [], 0)

  function AllSent(n: nat): (r: seq<Fate>)
    ensures |r| == n && forall i :: 0 <= i < n ==> r[i] == Sent
  {
    seq(n, _ => Sent)
  }

  function CeilDiv(a: nat, b: nat): nat
    requires b > 0
  {
    (a + b - 1) / b
  }

  /** How many spans each request of the next attempt holds. */
  function ChunkSize(size: nat, cap: nat, n: nat): nat
    requires n >= 2
  {
    CeilDiv(n, Min(Max(CeilDiv(size, Max(cap, 1)), 2), n))
  }

  /** A chunk is never empty and always strictly smaller than what it is cut from, whatever the cap. */
  lemma ChunkShrinks(size: nat, cap: nat, n: nat)
    requires n >= 2
    ensures 1 <= ChunkSize(size, cap, n) < n
  {
    var parts := Min(Max(CeilDiv(size, Max(cap, 1)), 2), n);
    assert 2 <= parts <= n;
    CeilDivShrinks(n, parts);
  }

  /** How many requests a measured size asks for: no fewer than it takes, from two up to one a span. */
  predicate PartsFor(parts: nat, size: nat, cap: nat, n: nat) {
    && 2 <= parts <= n
    && (parts < n ==> size <= parts * Max(cap, 1))
    && (parts > 2 ==> (parts - 1) * Max(cap, 1) < size)
  }

  /** The chunks are the smallest that make no more requests than that. */
  lemma ChunksAreEven(size: nat, cap: nat, n: nat) returns (parts: nat)
    requires n >= 2
    ensures PartsFor(parts, size, cap, n)
    ensures var chunk := ChunkSize(size, cap, n); chunk >= 1 && n <= chunk * parts && (chunk - 1) * parts < n
  {
    var unit := Max(cap, 1);
    parts := Min(Max(CeilDiv(size, unit), 2), n);
    ChunkShrinks(size, cap, n);
    CeilDivIsLeast(size, unit);
    CeilDivIsLeast(n, parts);
    var wanted := CeilDiv(size, unit);
    if parts < n {
      MulMonotone(wanted, parts, unit);
    }
    if parts > 2 {
      MulMonotone(parts - 1, wanted - 1, unit);
    }
  }

  lemma CeilDivIsLeast(a: nat, b: nat)
    requires b > 0
    ensures a <= CeilDiv(a, b) * b
    ensures CeilDiv(a, b) > 0 ==> (CeilDiv(a, b) - 1) * b < a
  {
    var q := CeilDiv(a, b);
    var r := (a + b - 1) % b;
    assert a + b - 1 == q * b + r;
    if q > 0 {
      assert (q - 1) * b == q * b - b;
    }
  }

  lemma CeilDivShrinks(n: nat, parts: nat)
    requires 2 <= parts <= n
    ensures 1 <= CeilDiv(n, parts) < n
  {
    var q := CeilDiv(n, parts);
    var r := (n + parts - 1) % parts;
    assert n + parts - 1 == q * parts + r;
    if q == 0 {
      assert false;
    }
    if q >= n {
      MulMonotone(n, q, parts);
      MulMonotone(2, parts, n);
      assert false;
    }
  }

  function Emit(codec: Codec, t: Template, spans: seq<SpanData>, cap: nat, compress: bool): Option<Log>
    decreases |spans|, 0, 0
  {
    if spans == [] then Some(Empty)
    else
      match Fit(codec, t.Around(spans), cap, compress)
      case Failed => None
      case Fits(body) => Some(Log([Piece(t.Around(spans), body)], AllSent(|spans|), 1))
      case Over(size) =>
        if |spans| == 1 then EmitBare(codec, t, spans[0], cap, compress)
        else
          ChunkShrinks(size, cap, |spans|);
          match EmitChunks(codec, t, spans, ChunkSize(size, cap, |spans|), cap, compress)
          case None => None
          case Some(log) => Some(log.(calls := log.calls + 1))
  }

  /** The last resort for a span too large alone: the same span without its payload. */
  function EmitBare(codec: Codec, t: Template, span: SpanData, cap: nat, compress: bool): Option<Log> {
    var bare := t.Around([DropPayload(span).0]);
    match Fit(codec, bare, cap, compress)
    case Failed => None
    case Fits(body) => Some(Log([Piece(bare, body)], [Trimmed], 2))
    case Over(_) => Some(Log([], [Dropped], 2))
  }

  function EmitChunks(codec: Codec, t: Template, rest: seq<SpanData>, chunk: nat, cap: nat, compress: bool): Option<Log>
    requires chunk >= 1
    decreases chunk, 1, |rest|
  {
    if rest == [] then Some(Empty)
    else
      var n := Min(chunk, |rest|);
      match (Emit(codec, t, rest[..n], cap, compress), EmitChunks(codec, t, rest[n..], chunk, cap, compress))
      case (Some(first), Some(others)) => Some(first.Then(others))
      case _ => None
  }

  // ---- The whole export ----

  datatype Batch = Batch(template: Template, spans: seq<SpanData>)

  /** The scopes of an export, in order. */
  function Batches(req: Request): seq<Batch>
    decreases |req.resourceSpans|
  {
    if req.resourceSpans == [] then []
    else ScopeBatches(req.resourceSpans[0], req.resourceSpans[0].scopeSpans) + Batches(Request(req.resourceSpans[1..]))
  }

  function ScopeBatches(rs: ResourceSpans, scopes: seq<ScopeSpans>): seq<Batch> {
    if scopes == [] then []
    else
      [Batch(Template(rs.resource, rs.schemaUrl, scopes[0].scope, scopes[0].schemaUrl), scopes[0].spans)]
      + ScopeBatches(rs, scopes[1..])
  }

  function EmitBatches(codec: Codec, batches: seq<Batch>, cap: nat, compress: bool): Option<Log> {
    if batches == [] then Some(Empty)
    else
      match (Emit(codec, batches[0].template, batches[0].spans, cap, compress),
             EmitBatches(codec, batches[1..], cap, compress))
      case (Some(first), Some(others)) => Some(first.Then(others))
      case _ => None
  }

  // ---- Spans with the resource and scope they belong to ----

  datatype Placed = Placed(template: Template, span: SpanData)

  function Place(t: Template, spans: seq<SpanData>): (r: seq<Placed>)
    ensures |r| == |spans|
  {
    seq(|spans|, i requires 0 <= i < |spans| => Placed(t, spans[i]))
  }

  function PlaceBatches(batches: seq<Batch>): seq<Placed> {
    if batches == [] then [] else Place(batches[0].template, batches[0].spans) + PlaceBatches(batches[1..])
  }

  /** Every span of a request with its resource and scope, in order. */
  function Contents(req: Request): seq<Placed> {
    PlaceBatches(Batches(req))
  }

  function AllContents(pieces: seq<Piece>): seq<Placed> {
    if pieces == [] then [] else Contents(pieces[0].request) + AllContents(pieces[1..])
  }

  /** The spans that remain when each meets its fate. */
  function Remaining(input: seq<Placed>, fates: seq<Fate>): seq<Placed>
    requires |input| == |fates|
  {
    if input == [] then []
    else Left(input[0], fates[0]) + Remaining(input[1..], fates[1..])
  }

  function Left(p: Placed, fate: Fate): seq<Placed> {
    match fate
    case Sent => [p]
    case Trimmed => [Placed(p.template, DropPayload(p.span).0)]
    case Dropped => []
  }

  function Count(fates: seq<Fate>, f: Fate): (n: nat)
    ensures n <= |fates|
  {
    if fates == [] then 0 else (if fates[0] == f then 1 else 0) + Count(fates[1..], f)
  }

  /** Spans sent only because a payload they had was removed. */
  function PayloadsDropped(input: seq<Placed>, fates: seq<Fate>): nat
    requires |input| == |fates|
  {
    if input == [] then 0
    else
      (if fates[0].Trimmed? && HasPayload(input[0].span) then 1 else 0) + PayloadsDropped(input[1..], fates[1..])
  }

  // ---- Laws ----

  lemma AroundHolds(t: Template, spans: seq<SpanData>)
    ensures Contents(t.Around(spans)) == Place(t, spans)
  {
    var req := t.Around(spans);
    var rs := req.resourceSpans[0];
    assert rs.scopeSpans[1..] == [] && req.resourceSpans[1..] == [];
    assert ScopeBatches(rs, rs.scopeSpans[1..]) == [];
    assert Batches(Request(req.resourceSpans[1..])) == [];
    assert Batches(req) == [Batch(t, spans)];
    assert [Batch(t, spans)][1..] == [];
    assert PlaceBatches([Batch(t, spans)]) == Place(t, spans) + [];
  }

  lemma {:induction false} AllContentsConcat(a: seq<Piece>, b: seq<Piece>)
    ensures AllContents(a + b) == AllContents(a) + AllContents(b)
  {
    if a == [] {
      assert a + b == b;
    } else {
      assert (a + b)[1..] == a[1..] + b;
      AllContentsConcat(a[1..], b);
      Assoc(Contents(a[0].request), AllContents(a[1..]), AllContents(b));
    }
  }

  lemma {:induction false} RemainingConcat(a: seq<Placed>, b: seq<Placed>, f: seq<Fate>, g: seq<Fate>)
    requires |a| == |f| && |b| == |g|
    ensures Remaining(a + b, f + g) == Remaining(a, f) + Remaining(b, g)
    ensures PayloadsDropped(a + b, f + g) == PayloadsDropped(a, f) + PayloadsDropped(b, g)
  {
    hide Left, HasPayload;
    if a == [] {
      assert a + b == b && f + g == g;
    } else {
      assert (a + b)[1..] == a[1..] + b && (f + g)[1..] == f[1..] + g;
      RemainingConcat(a[1..], b, f[1..], g);
      Assoc(Left(a[0], f[0]), Remaining(a[1..], f[1..]), Remaining(b, g));
    }
  }

  lemma {:induction false} CountConcat(f: seq<Fate>, g: seq<Fate>, x: Fate)
    ensures Count(f + g, x) == Count(f, x) + Count(g, x)
  {
    if f == [] {
      assert f + g == g;
    } else {
      assert (f + g)[1..] == f[1..] + g;
      CountConcat(f[1..], g, x);
    }
  }

  lemma {:induction false} SentRemain(input: seq<Placed>)
    ensures Remaining(input, AllSent(|input|)) == input
    ensures PayloadsDropped(input, AllSent(|input|)) == 0 && Count(AllSent(|input|), Dropped) == 0
  {
    if input != [] {
      SentRemain(input[1..]);
      assert AllSent(|input|)[1..] == AllSent(|input[1..]|);
      assert [input[0]] + input[1..] == input;
    }
  }

  /** Whether a receiver takes a request: its message is within the cap and, compressed if asked, its body is. */
  predicate Acceptable(codec: Codec, req: Request, cap: nat, compress: bool) {
    && |codec.encode(req)| <= cap
    && (compress ==> codec.gzip(codec.encode(req)).Some? && |codec.gzip(codec.encode(req)).value| <= cap)
  }

  /** Whether a span fits a request of its own. */
  predicate FitsAlone(codec: Codec, p: Placed, cap: nat, compress: bool) {
    Acceptable(codec, p.template.Around([p.span]), cap, compress)
  }

  /** Whether it does once its payload is gone. */
  predicate FitsBare(codec: Codec, p: Placed, cap: nat, compress: bool) {
    Acceptable(codec, p.template.Around([DropPayload(p.span).0]), cap, compress)
  }

  /** An attempt answers with the body exactly when a receiver takes it, and fails only where compressing does. */
  lemma FitIsExact(codec: Codec, req: Request, cap: nat, compress: bool)
    ensures var bytes, r := codec.encode(req), Fit(codec, req, cap, compress);
            && (r.Fits? <==> Acceptable(codec, req, cap, compress))
            && (r.Fits? ==> Some(r.body) == if compress then codec.gzip(bytes) else Some(bytes))
            && (r.Failed? <==> |bytes| <= cap && compress && codec.gzip(bytes).None?)
  {
  }

  /** A body is exactly its message, compressed if asked, and both are within the cap. */
  predicate Sized(codec: Codec, piece: Piece, cap: nat, compress: bool) {
    && |codec.encode(piece.request)| <= cap && |piece.body| <= cap
    && (if compress then codec.gzip(codec.encode(piece.request)) == Some(piece.body)
        else piece.body == codec.encode(piece.request))
  }

  /** Everything a log promises about the spans it was made from. */
  ghost predicate Faithful(codec: Codec, input: seq<Placed>, log: Log, cap: nat, compress: bool) {
    && |log.fates| == |input|
    && AllContents(log.pieces) == Remaining(input, log.fates)
    && (forall i :: 0 <= i < |input| ==> Deserved(codec, input[i], log.fates[i], cap, compress))
    && (forall p :: p in log.pieces ==> Sized(codec, p, cap, compress))
  }

  /** A span is changed only when it cannot be sent as it is, and lost only when it cannot be sent at all. */
  ghost predicate Deserved(codec: Codec, p: Placed, fate: Fate, cap: nat, compress: bool) {
    && (fate != Sent ==> !FitsAlone(codec, p, cap, compress))
    && (fate.Trimmed? ==> FitsBare(codec, p, cap, compress))
    && (fate.Dropped? ==> !FitsBare(codec, p, cap, compress))
  }

  lemma FaithfulConcat(codec: Codec, a: seq<Placed>, b: seq<Placed>, l: Log, m: Log, cap: nat, compress: bool)
    requires Faithful(codec, a, l, cap, compress) && Faithful(codec, b, m, cap, compress)
    ensures Faithful(codec, a + b, l.Then(m), cap, compress)
  {
    hide Deserved, Sized, Remaining, PayloadsDropped, AllContents;
    AllContentsConcat(l.pieces, m.pieces);
    RemainingConcat(a, b, l.fates, m.fates);
  }

  lemma PieceIsFaithful(codec: Codec, t: Template, spans: seq<SpanData>, body: seq<byte>, calls: nat, cap: nat,
      compress: bool)
    requires Fit(codec, t.Around(spans), cap, compress) == Fits(body)
    ensures var log := Log([Piece(t.Around(spans), body)], AllSent(|spans|), calls);
            Faithful(codec, Place(t, spans), log, cap, compress)
  {
    var pieces := [Piece(t.Around(spans), body)];
    AroundHolds(t, spans);
    SentRemain(Place(t, spans));
    assert pieces[1..] == [] && AllContents(pieces) == Contents(t.Around(spans)) + [];
  }

  lemma BareIsFaithful(codec: Codec, t: Template, span: SpanData, cap: nat, compress: bool)
    requires Fit(codec, t.Around([span]), cap, compress).Over?
    ensures var r := EmitBare(codec, t, span, cap, compress);
            r.Some? ==> Faithful(codec, Place(t, [span]), r.value, cap, compress)
  {
    var r := EmitBare(codec, t, span, cap, compress);
    var input := Place(t, [span]);
    assert input == [Placed(t, span)];
    if r.Some? {
      var fates := r.value.fates;
      assert fates[1..] == [] && input[1..] == [];
      assert Remaining(input[1..], fates[1..]) == [];
      if r.value.pieces != [] {
        var bare := [DropPayload(span).0];
        AroundHolds(t, bare);
        assert Place(t, bare) == [Placed(t, bare[0])];
        assert r.value.pieces[1..] == [] && AllContents(r.value.pieces) == Contents(t.Around(bare)) + [];
      }
    }
  }

  lemma PlaceConcat(t: Template, a: seq<SpanData>, b: seq<SpanData>)
    ensures Place(t, a + b) == Place(t, a) + Place(t, b)
  {
  }

  lemma NothingIsFaithful(codec: Codec, t: Template, spans: seq<SpanData>, cap: nat, compress: bool)
    requires spans == []
    ensures Faithful(codec, Place(t, spans), Empty, cap, compress)
  {
  }

  lemma {:induction false} EmitIsFaithful(codec: Codec, t: Template, spans: seq<SpanData>, cap: nat, compress: bool)
    ensures var r := Emit(codec, t, spans, cap, compress);
            r.Some? ==> Faithful(codec, Place(t, spans), r.value, cap, compress)
    decreases |spans|, 0, 0
  {
    if spans != [] {
      match Fit(codec, t.Around(spans), cap, compress) {
        case Failed =>
        case Fits(body) => PieceIsFaithful(codec, t, spans, body, 1, cap, compress);
        case Over(size) =>
          if |spans| == 1 {
            assert spans == [spans[0]];
            BareIsFaithful(codec, t, spans[0], cap, compress);
          } else {
            ChunkShrinks(size, cap, |spans|);
            ChunksAreFaithful(codec, t, spans, ChunkSize(size, cap, |spans|), cap, compress);
          }
      }
    }
  }

  lemma {:induction false} ChunksAreFaithful(codec: Codec, t: Template, rest: seq<SpanData>, chunk: nat,
      cap: nat, compress: bool)
    requires chunk >= 1
    ensures var r := EmitChunks(codec, t, rest, chunk, cap, compress);
            r.Some? ==> Faithful(codec, Place(t, rest), r.value, cap, compress)
    decreases chunk, 1, |rest|
  {
    hide Faithful, Emit, Place;
    if rest == [] {
      NothingIsFaithful(codec, t, rest, cap, compress);
    } else {
      var n := Min(chunk, |rest|);
      var first := Emit(codec, t, rest[..n], cap, compress);
      var others := EmitChunks(codec, t, rest[n..], chunk, cap, compress);
      EmitIsFaithful(codec, t, rest[..n], cap, compress);
      ChunksAreFaithful(codec, t, rest[n..], chunk, cap, compress);
      if first.Some? && others.Some? {
        assert rest[..n] + rest[n..] == rest;
        PlaceConcat(t, rest[..n], rest[n..]);
        FaithfulConcat(codec, Place(t, rest[..n]), Place(t, rest[n..]), first.value, others.value, cap, compress);
      }
    }
  }

  lemma {:induction false} BatchesAreFaithful(codec: Codec, batches: seq<Batch>, cap: nat, compress: bool)
    ensures var r := EmitBatches(codec, batches, cap, compress);
            r.Some? ==> Faithful(codec, PlaceBatches(batches), r.value, cap, compress)
  {
    if batches != [] {
      var first := Emit(codec, batches[0].template, batches[0].spans, cap, compress);
      var others := EmitBatches(codec, batches[1..], cap, compress);
      EmitIsFaithful(codec, batches[0].template, batches[0].spans, cap, compress);
      BatchesAreFaithful(codec, batches[1..], cap, compress);
      if first.Some? && others.Some? {
        FaithfulConcat(codec, Place(batches[0].template, batches[0].spans), PlaceBatches(batches[1..]),
                       first.value, others.value, cap, compress);
      }
    }
  }

  /**
   The whole export: its spans come out in order under their own resource and scope, each as it was, or
   without its payload, or not at all; a span that fits alone is always sent as it was; one is lost only
   when even its payload-free self does not fit; and both the bodies and the messages are within the cap.
   */
  lemma ExportIsFaithful(codec: Codec, req: Request, cap: nat, compress: bool)
    ensures var r := EmitBatches(codec, Batches(req), cap, compress);
            r.Some? ==> Faithful(codec, Contents(req), r.value, cap, compress)
  {
    BatchesAreFaithful(codec, Batches(req), cap, compress);
  }

  /** A whole scope that fits one request leaves as exactly that request, every span as it was. */
  lemma FittingScopeIsOneRequest(codec: Codec, t: Template, spans: seq<SpanData>, cap: nat, compress: bool)
    requires spans != [] && Acceptable(codec, t.Around(spans), cap, compress)
    ensures var r := Emit(codec, t, spans, cap, compress);
            && r.Some? && |r.value.pieces| == 1 && r.value.calls == 1
            && r.value.pieces[0].request == t.Around(spans)
            && Sized(codec, r.value.pieces[0], cap, compress)
            && r.value.fates == AllSent(|spans|)
  {
    FitIsExact(codec, t.Around(spans), cap, compress);
  }

  /** A compressor that never fails on what fits: an error of its is the only way an export fails. */
  predicate Compresses(codec: Codec, req: Request, cap: nat) {
    |codec.encode(req)| <= cap ==> codec.gzip(codec.encode(req)).Some?
  }

  lemma {:induction false} EmitSucceeds(codec: Codec, t: Template, spans: seq<SpanData>, cap: nat, compress: bool)
    requires compress ==> forall req :: Compresses(codec, req, cap)
    ensures Emit(codec, t, spans, cap, compress).Some?
    decreases |spans|, 0, 0
  {
    if spans != [] {
      FitIsExact(codec, t.Around(spans), cap, compress);
      assert compress ==> Compresses(codec, t.Around(spans), cap);
      var r := Fit(codec, t.Around(spans), cap, compress);
      if r.Over? {
        if |spans| == 1 {
          assert compress ==> Compresses(codec, t.Around([DropPayload(spans[0]).0]), cap);
        } else {
          ChunkShrinks(r.size, cap, |spans|);
          ChunksSucceed(codec, t, spans, ChunkSize(r.size, cap, |spans|), cap, compress);
        }
      }
    }
  }

  lemma {:induction false} ChunksSucceed(codec: Codec, t: Template, rest: seq<SpanData>, chunk: nat, cap: nat,
      compress: bool)
    requires chunk >= 1 && (compress ==> forall req :: Compresses(codec, req, cap))
    ensures EmitChunks(codec, t, rest, chunk, cap, compress).Some?
    decreases chunk, 1, |rest|
  {
    if rest != [] {
      var n := Min(chunk, |rest|);
      EmitSucceeds(codec, t, rest[..n], cap, compress);
      ChunksSucceed(codec, t, rest[n..], chunk, cap, compress);
    }
  }

  /** Unless compressing fails, every export gives its requests, a cap of zero included. */
  lemma {:induction false} ExportSucceeds(codec: Codec, batches: seq<Batch>, cap: nat, compress: bool)
    requires compress ==> forall req :: Compresses(codec, req, cap)
    ensures EmitBatches(codec, batches, cap, compress).Some?
  {
    hide Emit, Compresses;
    if batches != [] {
      EmitSucceeds(codec, batches[0].template, batches[0].spans, cap, compress);
      ExportSucceeds(codec, batches[1..], cap, compress);
    }
  }

  /** Nothing is lost uncounted: what is sent and what is dropped add up to what went in. */
  lemma {:induction false} SentAndDroppedAddUp(input: seq<Placed>, fates: seq<Fate>)
    requires |input| == |fates|
    ensures |Remaining(input, fates)| + Count(fates, Dropped) == |input|
  {
    if input != [] {
      SentAndDroppedAddUp(input[1..], fates[1..]);
    }
  }

  /** Cost: n spans of one scope take at most 3n - 1 attempts, however they have to be cut. */
  lemma {:induction false} EmitIsCheap(codec: Codec, t: Template, spans: seq<SpanData>, cap: nat, compress: bool)
    requires spans != []
    ensures var r := Emit(codec, t, spans, cap, compress); r.Some? ==> r.value.calls <= 3 * |spans| - 1
    decreases |spans|, 0, 0
  {
    match Fit(codec, t.Around(spans), cap, compress)
    case Over(size) =>
      if |spans| > 1 {
        ChunkShrinks(size, cap, |spans|);
        ChunksAreCheap(codec, t, spans, ChunkSize(size, cap, |spans|), cap, compress);
      }
    case _ =>
  }

  lemma {:induction false} ChunksAreCheap(codec: Codec, t: Template, rest: seq<SpanData>, chunk: nat, cap: nat,
      compress: bool)
    requires chunk >= 1
    ensures var r := EmitChunks(codec, t, rest, chunk, cap, compress);
            r.Some? ==>
              && (rest == [] ==> r.value.calls == 0)
              && (rest != [] ==> r.value.calls <= 3 * |rest| - 1)
              && (|rest| > chunk ==> r.value.calls <= 3 * |rest| - 2)
    decreases chunk, 1, |rest|
  {
    if rest != [] {
      var n := Min(chunk, |rest|);
      EmitIsCheap(codec, t, rest[..n], cap, compress);
      ChunksAreCheap(codec, t, rest[n..], chunk, cap, compress);
    }
  }

  // ---- Read back by a receiver ----

  /** A receiver that undoes the serialiser and the compressor. */
  ghost predicate Undoes(codec: Codec, decode: seq<byte> -> Option<Request>, gunzip: seq<byte> -> Option<seq<byte>>) {
    && (forall r :: decode(codec.encode(r)) == Some(r))
    && (forall b :: codec.gzip(b).Some? ==> gunzip(codec.gzip(b).value) == Some(b))
  }

  function Received(decode: seq<byte> -> Option<Request>, gunzip: seq<byte> -> Option<seq<byte>>,
                    compressed: bool, bodies: seq<seq<byte>>): Option<seq<Placed>>
  {
    if bodies == [] then Some([])
    else
      var raw := if compressed then gunzip(bodies[0]) else Some(bodies[0]);
      match raw
      case None => None
      case Some(bytes) =>
        match (decode(bytes), Received(decode, gunzip, compressed, bodies[1..]))
        case (Some(r), Some(more)) => Some(Contents(r) + more)
        case _ => None
  }

  function Bodies(pieces: seq<Piece>): (r: seq<seq<byte>>)
    ensures |r| == |pieces|
  {
    seq(|pieces|, i requires 0 <= i < |pieces| => pieces[i].body)
  }

  lemma {:induction false} BodiesReadBack(codec: Codec, decode: seq<byte> -> Option<Request>,
                                          gunzip: seq<byte> -> Option<seq<byte>>,
                                          pieces: seq<Piece>, cap: nat, compress: bool)
    requires Undoes(codec, decode, gunzip)
    requires forall p :: p in pieces ==> Sized(codec, p, cap, compress)
    ensures Received(decode, gunzip, compress, Bodies(pieces)) == Some(AllContents(pieces))
  {
    if pieces != [] {
      assert pieces[0] in pieces;
      assert Bodies(pieces)[1..] == Bodies(pieces[1..]);
      BodiesReadBack(codec, decode, gunzip, pieces[1..], cap, compress);
    }
  }

  /** Flattening what a receiver decodes from the bodies gives exactly the spans that were not dropped. */
  lemma ReceiverGetsTheRest(codec: Codec, decode: seq<byte> -> Option<Request>, gunzip: seq<byte> -> Option<seq<byte>>,
                            req: Request, cap: nat, compress: bool)
    requires Undoes(codec, decode, gunzip)
    ensures var r := EmitBatches(codec, Batches(req), cap, compress);
            r.Some? ==>
              && |r.value.fates| == |Contents(req)|
              && Received(decode, gunzip, compress, Bodies(r.value.pieces))
                == Some(Remaining(Contents(req), r.value.fates))
  {
    var r := EmitBatches(codec, Batches(req), cap, compress);
    if r.Some? {
      ExportIsFaithful(codec, req, cap, compress);
      BodiesReadBack(codec, decode, gunzip, r.value.pieces, cap, compress);
    }
  }
}
