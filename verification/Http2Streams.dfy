/** The bounded stream tables of one HTTP/2 connection: what each decoded event does to them. */
module Http2Streams {
  import opened Bytes
  import opened Options

  type Text = seq<byte>

  /** A decoded header: its name, one character per byte, and its value. */
  type Field = (string, Text)

  /** What HPACK makes of a header block. */
  datatype HpackResult = Headers(fields: seq<Field>) | TableSizeExceeded | DecodeFailed

  /** What the connection takes from outside: its limits, HPACK, and the number readers it calls. */
  datatype Env = Env(
    maxStreams: nat,
    maxStreamBuffer: nat,
    // The body cap a declared content type selects.
    capFor: Option<Text> -> nat,
    // HPACK is stateful and deterministic, so its answer is a function of every block one
    // direction's decoder was ever given, the last of them being the block to decode.
    hpack: seq<seq<byte>> -> HpackResult,
    parseStatus: Text -> Option<nat>,
    parseGrpcStatus: Text -> Option<int>)

  datatype StreamState = StreamState(
    method_: Option<Text>,
    path: Option<Text>,
    status: Option<nat>,
    reqContentType: Option<Text>,
    respContentType: Option<Text>,
    respContentEncoding: Option<Text>,
    grpcStatus: Option<int>,
    grpcMessage: Option<Text>,
    reqBody: seq<byte>,
    respBody: seq<byte>,
    reqEnded: bool,
    respEnded: bool,
    reqTruncated: bool,
    respTruncated: bool,
    // A client header block was decoded into this entry.
    requestSeen: bool,
    // Recreated for an id whose request half the table had evicted.
    requestEvicted: bool)

  function Fresh(evicted: bool): StreamState {
    StreamState(None, None, None, None, None, None, None, None, [], [],
                false, false, false, false, false, evicted)
  }

  datatype Transaction = Transaction(
    streamId: nat,
    method_: Text,
    path: Text,
    status: nat,
    contentType: Option<Text>,
    contentEncoding: Option<Text>,
    grpcStatus: Option<int>,
    grpcMessage: Option<Text>,
    requestBody: seq<byte>,
    responseBody: seq<byte>,
    truncated: bool,
    requestTruncated: bool,
    responseTruncated: bool,
    requestEnded: bool,
    requestEvicted: bool)

  function TransactionOf(id: nat, s: StreamState): Transaction {
    Transaction(id, GetOr(s.method_, []), GetOr(s.path, []), GetOr(s.status, 0),
                if s.respContentType.Some? then s.respContentType else s.reqContentType,
                s.respContentEncoding, s.grpcStatus, s.grpcMessage, s.reqBody, s.respBody,
                s.reqTruncated || s.respTruncated, s.reqTruncated, s.respTruncated,
                s.reqEnded, s.requestEvicted)
  }

  /** What one frame means once its header block, if any, has been decoded. */
  datatype Event =
    | Block(fromClient: bool, id: nat, endStream: bool, fields: seq<Field>)
    | Data(fromClient: bool, id: nat, endStream: bool, body: seq<byte>)
    | Reset(id: nat)
    | Quiet
  {
    predicate Touches() { Block? || Data? }

    /** The server's end of a stream, the one event that completes a transaction. */
    predicate EndsResponse() { Touches() && endStream && !fromClient }
  }

  datatype Output = Output(announced: seq<nat>, transactions: seq<Transaction>) {
    function Then(next: Output): Output {
      Output(announced + next.announced, transactions + next.transactions)
    }
  }

  const Nothing := Output([], [])

  datatype Tables = Tables(
    streams: map<nat, StreamState>,
    orphans: map<nat, StreamState>,
    evictedThrough: nat,
    reset: set<nat>,
    firstRequest: nat)

  const EmptyTables := Tables(map[], map[], 0, {}, 0)

  /** Number of entries each table may hold between frames. */
  function TableCap(env: Env): (cap: nat)
    ensures cap >= 1 && cap >= env.maxStreams
  {
    Max(env.maxStreams, 1)
  }

  // ---- One stream's entry ----

  /** The headers the tracker reads. */
  datatype HeaderName = Method | Path | Status | ContentType | ContentEncoding | GrpcStatus | GrpcMessage | Unread

  function NameOf(name: string): HeaderName {
    if name == ":method" then Method
    else if name == ":path" then Path
    else if name == ":status" then Status
    else if name == "content-type" then ContentType
    else if name == "content-encoding" then ContentEncoding
    else if name == "grpc-status" then GrpcStatus
    else if name == "grpc-message" then GrpcMessage
    else Unread
  }

  function ApplyHeader(env: Env, st: StreamState, fromClient: bool, name: HeaderName, value: Text): StreamState {
    match name
    case Method => st.(method_ := Some(value))
    case Path => st.(path := Some(value))
    case Status => st.(status := env.parseStatus(value))
    case ContentType =>
      if fromClient then st.(reqContentType := Some(value)) else st.(respContentType := Some(value))
    case ContentEncoding => if fromClient then st else st.(respContentEncoding := Some(value))
    case GrpcStatus => st.(grpcStatus := env.parseGrpcStatus(value))
    case GrpcMessage => st.(grpcMessage := Some(value))
    case Unread => st
  }

  function ApplyFields(env: Env, st: StreamState, fromClient: bool, fields: seq<Field>): StreamState {
    if fields == [] then st
    else
      var (name, value) := fields[|fields| - 1];
      ApplyHeader(env, ApplyFields(env, st, fromClient, fields[..|fields| - 1]), fromClient, NameOf(name), value)
  }

  /** A body grown by `data` up to `cap`, and whether anything was cut. */
  function Grow(body: seq<byte>, truncated: bool, data: seq<byte>, cap: nat): (seq<byte>, bool) {
    var room := if |body| <= cap then cap - |body| else 0;
    if |data| <= room then (body + data, truncated) else (body + data[..room], true)
  }

  function ApplyData(env: Env, st: StreamState, fromClient: bool, body: seq<byte>): StreamState {
    if fromClient then
      var (b, t) := Grow(st.reqBody, st.reqTruncated, body, env.capFor(st.reqContentType));
      st.(reqBody := b, reqTruncated := t)
    else
      var (b, t) := Grow(st.respBody, st.respTruncated, body, env.capFor(st.respContentType));
      st.(respBody := b, respTruncated := t)
  }

  /** The entry after a header block or a DATA frame on its stream. */
  function EntryStep(env: Env, st: StreamState, e: Event): StreamState
    requires e.Touches()
  {
    var st1 := match e
      case Block(fromClient, _, _, fields) =>
        ApplyFields(env, st.(requestSeen := st.requestSeen || fromClient), fromClient, fields)
      case Data(fromClient, _, _, body) => ApplyData(env, st, fromClient, body);
    if !e.endStream then st1
    else if e.fromClient then st1.(reqEnded := true)
    else st1.(respEnded := true)
  }

  // ---- The tables ----

  /** Whether an entry created for `id` now would belong with the orphans. */
  predicate UnderMark(t: Tables, id: nat) {
    id % 2 == 1 && t.firstRequest != 0 && t.firstRequest <= id <= t.evictedThrough
  }

  predicate IsOrphan(t: Tables, id: nat) {
    id in t.orphans || (id !in t.streams && UnderMark(t, id))
  }

  function Lookup(t: Tables, id: nat): StreamState {
    if IsOrphan(t, id) then
      if id in t.orphans then t.orphans[id] else Fresh(true)
    else
      if id in t.streams then t.streams[id] else Fresh(false)
  }

  function Store(t: Tables, id: nat, st: StreamState): Tables {
    if IsOrphan(t, id) then t.(orphans := t.orphans[id := st]) else t.(streams := t.streams[id := st])
  }

  function Drop(t: Tables, id: nat): Tables {
    if id in t.streams then t.(streams := t.streams - {id}) else t.(orphans := t.orphans - {id})
  }

  function NoteFirst(t: Tables, e: Event): Tables
    requires e.Touches()
  {
    if e.Block? && e.fromClient && t.firstRequest == 0 then t.(firstRequest := e.id) else t
  }

  function ApplyEvent(env: Env, t: Tables, e: Event): (Tables, Output) {
    match e
    case Quiet => (t, Nothing)
    case Reset(id) =>
      (t.(streams := t.streams - {id}, orphans := t.orphans - {id},
          reset := KeepHighest(t.reset + {id}, TableCap(env))), Nothing)
    case _ =>
      if e.id in t.reset then (t, Nothing)
      else
        var t1 := NoteFirst(t, e);
        var before := Lookup(t1, e.id);
        var st := EntryStep(env, before, e);
        var announced := if e.endStream && e.fromClient && !before.reqEnded then [e.id] else [];
        if e.endStream && st.respEnded then
          (Drop(Store(t1, e.id, st), e.id), Output(announced, [TransactionOf(e.id, st)]))
        else
          (Store(t1, e.id, st), Output(announced, []))
  }

  // ---- Bounds ----

  lemma {:induction false} MinExists(s: set<nat>)
    requires s != {}
    ensures exists x :: x in s && forall y :: y in s ==> x <= y
  {
    var x :| x in s;
    if s != {x} {
      var rest := s - {x};
      MinExists(rest);
      var m :| m in rest && forall y :: y in rest ==> m <= y;
      var least := Min(x, m);
      assert s == rest + {x};
      assert least in s && forall y :: y in s ==> least <= y;
    }
  }

  function Lowest(s: set<nat>): (x: nat)
    requires s != {}
    ensures x in s && forall y :: y in s ==> x <= y
  {
    MinExists(s);
    var x :| x in s && forall y :: y in s ==> x <= y;
    x
  }

  function KeepHighest(s: set<nat>, cap: nat): (r: set<nat>)
    ensures r <= s
    ensures |r| == Min(|s|, cap)
    ensures forall lost, kept :: lost in s && lost !in r && kept in r ==> lost < kept
    decreases |s|
  {
    if |s| <= cap then s else KeepHighest(s - {Lowest(s)}, cap)
  }

  lemma Shrinks<V>(m: map<nat, V>, id: nat)
    requires id in m
    ensures |m - {id}| == |m| - 1
  {
    assert (m - {id}).Keys == m.Keys - {id};
    assert |m.Keys - {id}| == |m.Keys| - 1;
  }

  /** The live table cut back to `cap`, lowest ids first, with the mark raised over lost requests. */
  function EvictStreams(m: map<nat, StreamState>, mark: nat, cap: nat): (map<nat, StreamState>, nat)
    decreases |m|
  {
    if |m| <= cap then (m, mark)
    else
      var id := Lowest(m.Keys);
      Shrinks(m, id);
      EvictStreams(m - {id}, if m[id].requestSeen then Max(mark, id) else mark, cap)
  }

  /** The ids whose decoded request half that cut loses. */
  function Trimmed(m: map<nat, StreamState>, cap: nat): set<nat>
    decreases |m|
  {
    if |m| <= cap then {}
    else
      var id := Lowest(m.Keys);
      Shrinks(m, id);
      (if m[id].requestSeen then {id} else {}) + Trimmed(m - {id}, cap)
  }

  function EvictOrphans(m: map<nat, StreamState>, cap: nat): map<nat, StreamState>
    decreases |m|
  {
    if |m| <= cap then m
    else
      var id := Lowest(m.Keys);
      Shrinks(m, id);
      EvictOrphans(m - {id}, cap)
  }

  /** What runs after every frame. */
  function Evict(env: Env, t: Tables): Tables {
    var cap := TableCap(env);
    var (streams, mark) := EvictStreams(t.streams, t.evictedThrough, cap);
    t.(streams := streams, evictedThrough := mark, orphans := EvictOrphans(t.orphans, cap))
  }

  function Step(env: Env, t: Tables, e: Event): (Tables, Output) {
    var (t1, out) := ApplyEvent(env, t, e);
    (Evict(env, t1), out)
  }

  /** What the cut after event `e` loses. */
  function Lost(env: Env, t: Tables, e: Event): set<nat> {
    Trimmed(ApplyEvent(env, t, e).0.streams, TableCap(env))
  }

  function Run(env: Env, t: Tables, es: seq<Event>): (Tables, Output)
    decreases |es|
  {
    if es == [] then (t, Nothing)
    else
      var (t1, out) := Step(env, t, es[0]);
      var (t2, rest) := Run(env, t1, es[1..]);
      (t2, out.Then(rest))
  }

  // ---- What eviction does ----

  /** Removing the lowest key first removes it from the kept ones too. */
  lemma KeepHighestOfMap<V>(m: map<nat, V>, cap: nat)
    requires |m| > cap
    ensures KeepHighest(m.Keys, cap) == KeepHighest((m - {Lowest(m.Keys)}).Keys, cap)
  {
    assert (m - {Lowest(m.Keys)}).Keys == m.Keys - {Lowest(m.Keys)};
    assert |m.Keys| == |m|;
  }

  /** Eviction keeps exactly the highest ids, each with its entry unchanged. */
  lemma {:induction false} EvictStreamsKeepsHighest(m: map<nat, StreamState>, mark: nat, cap: nat)
    ensures EvictStreams(m, mark, cap).0.Keys == KeepHighest(m.Keys, cap)
    ensures forall id :: id in EvictStreams(m, mark, cap).0 ==> id in m && EvictStreams(m, mark, cap).0[id] == m[id]
    decreases |m|
  {
    if |m| <= cap {
      assert |m.Keys| == |m|;
    } else {
      var id := Lowest(m.Keys);
      Shrinks(m, id);
      KeepHighestOfMap(m, cap);
      EvictStreamsKeepsHighest(m - {id}, if m[id].requestSeen then Max(mark, id) else mark, cap);
    }
  }

  /** What is lost is every evicted entry that held a request. */
  lemma {:induction false} TrimmedIsWhatIsLost(m: map<nat, StreamState>, mark: nat, cap: nat)
    ensures forall id :: id in Trimmed(m, cap) <==> id in m && id !in EvictStreams(m, mark, cap).0 && m[id].requestSeen
    decreases |m|
  {
    if |m| > cap {
      var id := Lowest(m.Keys);
      Shrinks(m, id);
      var rest, mark1 := m - {id}, if m[id].requestSeen then Max(mark, id) else mark;
      TrimmedIsWhatIsLost(rest, mark1, cap);
      EvictStreamsKeepsHighest(rest, mark1, cap);
      assert EvictStreams(m, mark, cap).0 == EvictStreams(rest, mark1, cap).0;
      assert forall k :: k in m && k != id ==> k in rest && rest[k] == m[k];
    }
  }

  /** The mark rises to the highest request lost, and to nothing else. */
  lemma {:induction false} MarkIsHighestLost(m: map<nat, StreamState>, mark: nat, cap: nat)
    ensures mark <= EvictStreams(m, mark, cap).1
    ensures forall id :: id in Trimmed(m, cap) ==> id <= EvictStreams(m, mark, cap).1
    ensures EvictStreams(m, mark, cap).1 == mark || EvictStreams(m, mark, cap).1 in Trimmed(m, cap)
    decreases |m|
  {
    if |m| > cap {
      var id := Lowest(m.Keys);
      Shrinks(m, id);
      MarkIsHighestLost(m - {id}, if m[id].requestSeen then Max(mark, id) else mark, cap);
    }
  }

  lemma {:induction false} EvictOrphansKeepsHighest(m: map<nat, StreamState>, cap: nat)
    ensures EvictOrphans(m, cap).Keys == KeepHighest(m.Keys, cap)
    ensures forall id :: id in EvictOrphans(m, cap) ==> id in m && EvictOrphans(m, cap)[id] == m[id]
    decreases |m|
  {
    if |m| <= cap {
      assert |m.Keys| == |m|;
    } else {
      var id := Lowest(m.Keys);
      Shrinks(m, id);
      KeepHighestOfMap(m, cap);
      EvictOrphansKeepsHighest(m - {id}, cap);
    }
  }

  /** Everything eviction does to the tables, in one place. */
  lemma EvictionFacts(env: Env, t: Tables)
    ensures var t1 := Evict(env, t);
            && t1.reset == t.reset && t1.firstRequest == t.firstRequest
            && (forall id :: id in t1.streams ==> id in t.streams && t1.streams[id] == t.streams[id])
            && (forall id :: id in t1.orphans ==> id in t.orphans && t1.orphans[id] == t.orphans[id])
            && t.evictedThrough <= t1.evictedThrough
            && (t1.evictedThrough != t.evictedThrough ==>
                  && t1.evictedThrough in t.streams && t.streams[t1.evictedThrough].requestSeen
                  && forall id :: id in t1.streams ==> t1.evictedThrough < id)
  {
    var cap := TableCap(env);
    EvictStreamsKeepsHighest(t.streams, t.evictedThrough, cap);
    EvictOrphansKeepsHighest(t.orphans, cap);
    TrimmedIsWhatIsLost(t.streams, t.evictedThrough, cap);
    MarkIsHighestLost(t.streams, t.evictedThrough, cap);
  }

  // ---- The resource invariant of the tables ----

  ghost predicate Disjoint(t: Tables) {
    && t.streams.Keys !! t.orphans.Keys
    && t.streams.Keys !! t.reset
    && t.orphans.Keys !! t.reset
  }

  ghost predicate Bounded(env: Env, t: Tables) {
    && |t.streams| <= TableCap(env)
    && |t.orphans| <= TableCap(env)
    && |t.reset| <= TableCap(env)
  }

  lemma EventKeepsDisjoint(env: Env, t: Tables, e: Event)
    requires Disjoint(t)
    ensures Disjoint(ApplyEvent(env, t, e).0)
  {
  }

  lemma EventKeepsResetBound(env: Env, t: Tables, e: Event)
    requires |t.reset| <= TableCap(env)
    ensures |ApplyEvent(env, t, e).0.reset| <= TableCap(env)
  {
  }

  /** Every event keeps the tables apart, and the cut after it puts them back under their bounds. */
  lemma StepKeepsTables(env: Env, t: Tables, e: Event)
    requires Disjoint(t) && Bounded(env, t)
    ensures Disjoint(Step(env, t, e).0) && Bounded(env, Step(env, t, e).0)
  {
    EventKeepsDisjoint(env, t, e);
    EventKeepsResetBound(env, t, e);
    EvictKeepsTables(env, ApplyEvent(env, t, e).0);
  }

  lemma EvictKeepsTables(env: Env, t: Tables)
    requires Disjoint(t) && |t.reset| <= TableCap(env)
    ensures Disjoint(Evict(env, t)) && Bounded(env, Evict(env, t))
  {
    EvictStreamsKeepsHighest(t.streams, t.evictedThrough, TableCap(env));
    EvictOrphansKeepsHighest(t.orphans, TableCap(env));
    var t1 := Evict(env, t);
    assert |t1.streams.Keys| == |t1.streams| && |t1.orphans.Keys| == |t1.orphans|;
  }

  lemma {:induction false} RunKeepsTables(env: Env, t: Tables, es: seq<Event>)
    requires Disjoint(t) && Bounded(env, t)
    ensures Disjoint(Run(env, t, es).0) && Bounded(env, Run(env, t, es).0)
    decreases |es|
  {
    if es != [] {
      StepKeepsTables(env, t, es[0]);
      RunKeepsTables(env, Step(env, t, es[0]).0, es[1..]);
    }
  }

  // ---- Remembered resets ----

  lemma Subset(a: set<nat>, b: set<nat>)
    requires a <= b
    ensures |a| <= |b|
  {
    assert b == a + (b - a);
    assert |b| == |a| + |b - a|;
  }

  lemma LowestIs(s: set<nat>, m: nat)
    requires m in s && forall y :: y in s ==> m <= y
    ensures Lowest(s) == m
  {
  }

  /** An id with as many others above it as are kept may be dropped first. */
  lemma {:induction false} DropsOut(s: set<nat>, low: nat, up: set<nat>, cap: nat)
    requires low in s && up <= s && |up| >= cap && forall x :: x in up ==> low < x
    ensures KeepHighest(s, cap) == KeepHighest(s - {low}, cap)
    decreases |s|
  {
    var m := Lowest(s);
    Subset(up + {low}, s);
    assert |up + {low}| == |up| + 1;
    if m != low {
      var rest := s - {low};
      DropsOut(s - {m}, low, up, cap);
      LowestIs(rest, m);
      Subset(up + {m}, rest);
      assert |up + {m}| == |up| + 1;
      assert s - {m} - {low} == rest - {m};
    }
  }

  /** Dropping the lowest ids early loses nothing that dropping them at the end would keep. */
  lemma {:induction false} KeepHighestTwice(a: set<nat>, b: set<nat>, cap: nat)
    ensures KeepHighest(KeepHighest(a, cap) + b, cap) == KeepHighest(a + b, cap)
    decreases |a|
  {
    if |a| > cap {
      var low := Lowest(a);
      KeepHighestTwice(a - {low}, b, cap);
      if low in b {
        assert a - {low} + b == a + b;
      } else {
        DropsOut(a + b, low, a - {low}, cap);
        assert a + b - {low} == a - {low} + b;
      }
    }
  }

  /** The ids a run of events resets. */
  function ResetIds(es: seq<Event>): set<nat> {
    if es == [] then {} else (if es[0].Reset? then {es[0].id} else {}) + ResetIds(es[1..])
  }

  /** What one event's reset, if it is one, adds to those seen before. */
  function WithReset(seen: set<nat>, e: Event): set<nat> {
    if e.Reset? then seen + {e.id} else seen
  }

  lemma EventRemembers(env: Env, t: Tables, e: Event)
    ensures ApplyEvent(env, t, e).0.reset ==
            if e.Reset? then KeepHighest(t.reset + {e.id}, TableCap(env)) else t.reset
  {
    hide KeepHighest, EntryStep, Lookup, TransactionOf, TableCap;
  }

  lemma StepRemembers(env: Env, t: Tables, e: Event)
    requires |t.reset| <= TableCap(env)
    ensures Step(env, t, e).0.reset == KeepHighest(WithReset(t.reset, e), TableCap(env))
  {
    hide ApplyEvent, Evict, TableCap;
    EventRemembers(env, t, e);
    EvictionFacts(env, ApplyEvent(env, t, e).0);
  }

  lemma ResetIdsStep(seen: set<nat>, es: seq<Event>)
    requires es != []
    ensures WithReset(seen, es[0]) + ResetIds(es[1..]) == seen + ResetIds(es)
  {
  }

  lemma RunStep(env: Env, t: Tables, es: seq<Event>)
    requires es != []
    ensures var t1 := Step(env, t, es[0]).0;
            && Run(env, t, es).0 == Run(env, t1, es[1..]).0
            && Run(env, t, es).1 == Step(env, t, es[0]).1.Then(Run(env, t1, es[1..]).1)
  {
    hide Step;
  }

  /** After any run the ids remembered are the highest of all that were ever reset, as many as the bound. */
  lemma {:induction false} HighestResetsAreRemembered(env: Env, t: Tables, es: seq<Event>)
    requires |t.reset| <= TableCap(env)
    ensures Run(env, t, es).0.reset == KeepHighest(t.reset + ResetIds(es), TableCap(env))
    decreases |es|
  {
    hide Step, TableCap, Run, KeepHighest;
    if es == [] {
      NothingIsForgotten(env, t);
    } else {
      StepRemembers(env, t, es[0]);
      RunStep(env, t, es);
      HighestResetsAreRemembered(env, Step(env, t, es[0]).0, es[1..]);
      KeepHighestTwice(WithReset(t.reset, es[0]), ResetIds(es[1..]), TableCap(env));
      ResetIdsStep(t.reset, es);
    }
  }

  lemma NothingIsForgotten(env: Env, t: Tables)
    requires |t.reset| <= TableCap(env)
    ensures Run(env, t, []).0.reset == KeepHighest(t.reset + ResetIds([]), TableCap(env))
  {
    assert t.reset + {} == t.reset;
  }

  predicate Mentions(out: Output, id: nat) {
    id in out.announced || exists tx :: tx in out.transactions && tx.streamId == id
  }

  /** An id pushed out is below as many others as fit: nothing brings it back, another reset of it included. */
  lemma ForgottenStaysForgotten(a: set<nat>, b: set<nat>, cap: nat, id: nat)
    requires id in a && id !in KeepHighest(a, cap)
    ensures id !in KeepHighest(KeepHighest(a, cap) + b, cap)
  {
    var k := KeepHighest(a, cap);
    assert |a| > cap;
    if id in k + b {
      DropsOut(k + b, id, k, cap);
    }
  }

  lemma EventIsSilent(env: Env, t: Tables, e: Event, id: nat)
    requires id in t.reset
    ensures !Mentions(ApplyEvent(env, t, e).1, id)
  {
    hide KeepHighest, EntryStep, Lookup, TableCap, Store, Drop;
  }

  lemma SilenceThenSilence(out: Output, rest: Output, id: nat)
    requires !Mentions(out, id) && !Mentions(rest, id)
    ensures !Mentions(out.Then(rest), id)
  {
  }

  /**
   An id among the highest ever reset, as many as the table holds, stays silent: no event of the run announces
   its stream or completes a transaction on it, and it is remembered throughout.
   */
  lemma {:induction false} ResetStreamsStaySilent(env: Env, t: Tables, es: seq<Event>, id: nat)
    requires |t.reset| <= TableCap(env) && id in t.reset
    requires id in KeepHighest(t.reset + ResetIds(es), TableCap(env))
    ensures !Mentions(Run(env, t, es).1, id) && id in Run(env, t, es).0.reset
    decreases |es|
  {
    hide Step, TableCap, Run, KeepHighest, Mentions;
    HighestResetsAreRemembered(env, t, es);
    if es == [] {
      NothingMentions(env, t, id);
    } else {
      StepStaysSilent(env, t, es, id);
      ResetStreamsStaySilent(env, Step(env, t, es[0]).0, es[1..], id);
      RunStep(env, t, es);
      SilenceThenSilence(Step(env, t, es[0]).1, Run(env, Step(env, t, es[0]).0, es[1..]).1, id);
    }
  }

  lemma StepStaysSilent(env: Env, t: Tables, es: seq<Event>, id: nat)
    requires es != [] && |t.reset| <= TableCap(env) && id in t.reset
    requires id in KeepHighest(t.reset + ResetIds(es), TableCap(env))
    ensures var t1 := Step(env, t, es[0]).0;
            && !Mentions(Step(env, t, es[0]).1, id) && id in t1.reset && |t1.reset| <= TableCap(env)
            && id in KeepHighest(t1.reset + ResetIds(es[1..]), TableCap(env))
  {
    hide ApplyEvent, Evict, TableCap, KeepHighest, Mentions;
    var seen, later := WithReset(t.reset, es[0]), ResetIds(es[1..]);
    StepRemembers(env, t, es[0]);
    EventIsSilent(env, t, es[0], id);
    KeepHighestTwice(seen, later, TableCap(env));
    ResetIdsStep(t.reset, es);
    if id !in Step(env, t, es[0]).0.reset {
      ForgottenStaysForgotten(seen, later, TableCap(env), id);
    }
  }

  lemma NothingMentions(env: Env, t: Tables, id: nat)
    ensures !Mentions(Run(env, t, []).1, id)
  {
  }
}
