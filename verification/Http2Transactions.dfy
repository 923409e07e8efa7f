/**
 What a reported transaction holds, said of what the two sides sent on its stream: the headers last named, the
 start of each side's body, and how each side ended.
 */
module Http2Transactions {
  import opened Bytes
  import opened Options
  import opened Http2Streams

  // ---- One stream's events ----

  predicate On(e: Event, id: nat) {
    e.Touches() && e.id == id
  }

  /** The header blocks and DATA of one stream, in order. */
  function OnStream(es: seq<Event>, id: nat): (r: seq<Event>)
    ensures forall e :: e in r ==> On(e, id)
  {
    if es == [] then []
    else OnStream(es[..|es| - 1], id) + (if On(es[|es| - 1], id) then [es[|es| - 1]] else [])
  }

  /** The last value given to a name. */
  function LastIn(fields: seq<Field>, name: string): Option<Text> {
    if fields == [] then None
    else if fields[|fields| - 1].0 == name then Some(fields[|fields| - 1].1)
    else LastIn(fields[..|fields| - 1], name)
  }

  predicate From(e: Event, client: bool, server: bool)
    requires e.Touches()
  {
    if e.fromClient then client else server
  }

  /** The last value any header block of the given sides gave to a name. */
  function LastValue(hs: seq<Event>, name: string, client: bool, server: bool): Option<Text>
    requires forall e :: e in hs ==> e.Touches()
  {
    if hs == [] then None
    else
      var e := hs[|hs| - 1];
      var earlier := LastValue(hs[..|hs| - 1], name, client, server);
      if e.Block? && From(e, client, server) && LastIn(e.fields, name).Some? then LastIn(e.fields, name) else earlier
  }

  /** Everything one side sent as DATA. */
  function BodySent(hs: seq<Event>, fromClient: bool): seq<byte> {
    if hs == [] then []
    else
      var e := hs[|hs| - 1];
      BodySent(hs[..|hs| - 1], fromClient) + (if e.Data? && e.fromClient == fromClient then e.body else [])
  }

  /** No block a side sends after DATA of its own names a content type. */
  predicate Settled(hs: seq<Event>, fromClient: bool) {
    forall i, k :: 0 <= i < k < |hs| && hs[i].Data? && hs[i].fromClient == fromClient ==>
      hs[k].Block? && hs[k].fromClient == fromClient ==> LastIn(hs[k].fields, "content-type").None?
  }

  predicate ClientEnded(hs: seq<Event>) {
    exists i :: 0 <= i < |hs| && hs[i].Touches() && hs[i].endStream && hs[i].fromClient
  }

  // ---- What a transaction says ----

  function OwnType(hs: seq<Event>, fromClient: bool): Option<Text>
    requires forall e :: e in hs ==> e.Touches()
  {
    LastValue(hs, "content-type", fromClient, !fromClient)
  }

  /** A body is the start of what was sent, up to the cap of its side's own content type. */
  ghost predicate BodyHolds(env: Env, hs: seq<Event>, fromClient: bool, body: seq<byte>, truncated: bool)
    requires forall e :: e in hs ==> e.Touches()
  {
    var cap := env.capFor(OwnType(hs, fromClient));
    var sent := BodySent(hs, fromClient);
    body == Take(sent, cap) && (truncated <==> |sent| > cap)
  }

  ghost predicate HeadersHold(env: Env, hs: seq<Event>, tx: Transaction)
    requires forall e :: e in hs ==> e.Touches()
  {
    && tx.method_ == GetOr(LastValue(hs, ":method", true, true), [])
    && tx.path == GetOr(LastValue(hs, ":path", true, true), [])
    && tx.status == (match LastValue(hs, ":status", true, true)
                     case Some(v) => GetOr(env.parseStatus(v), 0)
                     case None => 0)
    && tx.contentType == (match OwnType(hs, false) case Some(v) => Some(v) case None => OwnType(hs, true))
    && tx.contentEncoding == LastValue(hs, "content-encoding", false, true)
    && tx.grpcStatus == (match LastValue(hs, "grpc-status", true, true)
                         case Some(v) => env.parseGrpcStatus(v)
                         case None => None)
    && tx.grpcMessage == LastValue(hs, "grpc-message", true, true)
  }

  /** A transaction tells what was sent on its stream. */
  ghost predicate Tells(env: Env, id: nat, hs: seq<Event>, tx: Transaction)
    requires forall e :: e in hs ==> e.Touches()
  {
    && tx.streamId == id && HeadersHold(env, hs, tx)
    && (Settled(hs, true) ==> BodyHolds(env, hs, true, tx.requestBody, tx.requestTruncated))
    && (Settled(hs, false) ==> BodyHolds(env, hs, false, tx.responseBody, tx.responseTruncated))
    && tx.truncated == (tx.requestTruncated || tx.responseTruncated)
    && (tx.requestEnded <==> ClientEnded(hs))
  }

  // ---- The entry holds it ----

  function Entry(env: Env, hs: seq<Event>): StreamState
    requires forall e :: e in hs ==> e.Touches()
  {
    if hs == [] then Fresh(false) else EntryStep(env, Entry(env, hs[..|hs| - 1]), hs[|hs| - 1])
  }

  function OrElse<T>(a: Option<T>, b: Option<T>): Option<T> {
    if a.Some? then a else b
  }

  /** A value read from a header if one came, and what was held before if none did. */
  function Reread<T>(v: Option<Text>, read: Text -> Option<T>, before: Option<T>): Option<T> {
    match v
    case Some(t) => read(t)
    case None => before
  }

  lemma {:induction false} FieldsApplied(env: Env, st: StreamState, side: bool, fields: seq<Field>)
    ensures var r := ApplyFields(env, st, side, fields);
            && r.method_ == OrElse(LastIn(fields, ":method"), st.method_)
            && r.path == OrElse(LastIn(fields, ":path"), st.path)
            && r.status == Reread(LastIn(fields, ":status"), env.parseStatus, st.status)
            && r.grpcStatus == Reread(LastIn(fields, "grpc-status"), env.parseGrpcStatus, st.grpcStatus)
            && r.grpcMessage == OrElse(LastIn(fields, "grpc-message"), st.grpcMessage)
    ensures var r := ApplyFields(env, st, side, fields);
            && r.reqContentType == (if side then OrElse(LastIn(fields, "content-type"), st.reqContentType)
                                    else st.reqContentType)
            && r.respContentType == (if side then st.respContentType
                                     else OrElse(LastIn(fields, "content-type"), st.respContentType))
            && r.respContentEncoding == (if side then st.respContentEncoding
                                         else OrElse(LastIn(fields, "content-encoding"), st.respContentEncoding))
    ensures var r := ApplyFields(env, st, side, fields);
            && r.reqBody == st.reqBody && r.respBody == st.respBody
            && r.reqTruncated == st.reqTruncated && r.respTruncated == st.respTruncated
            && r.reqEnded == st.reqEnded && r.respEnded == st.respEnded && r.requestEvicted == st.requestEvicted
    decreases |fields|
  {
    if fields != [] {
      var front, last := fields[..|fields| - 1], fields[|fields| - 1];
      FieldsApplied(env, st, side, front);
      OneHeader(env, ApplyFields(env, st, side, front), side, last);
    }
  }

  lemma OneHeader(env: Env, st: StreamState, side: bool, f: Field)
    ensures var r := ApplyHeader(env, st, side, NameOf(f.0), f.1);
            && r.method_ == (if f.0 == ":method" then Some(f.1) else st.method_)
            && r.path == (if f.0 == ":path" then Some(f.1) else st.path)
            && r.status == (if f.0 == ":status" then env.parseStatus(f.1) else st.status)
            && r.grpcStatus == (if f.0 == "grpc-status" then env.parseGrpcStatus(f.1) else st.grpcStatus)
            && r.grpcMessage == (if f.0 == "grpc-message" then Some(f.1) else st.grpcMessage)
            && r.reqContentType == (if side && f.0 == "content-type" then Some(f.1) else st.reqContentType)
            && r.respContentType == (if !side && f.0 == "content-type" then Some(f.1) else st.respContentType)
            && r.respContentEncoding
               == (if !side && f.0 == "content-encoding" then Some(f.1) else st.respContentEncoding)
            && r.reqBody == st.reqBody && r.respBody == st.respBody
            && r.reqTruncated == st.reqTruncated && r.respTruncated == st.respTruncated
            && r.reqEnded == st.reqEnded && r.respEnded == st.respEnded && r.requestEvicted == st.requestEvicted
  {
    NamesDiffer(f.0);
    hide NameOf;
  }

  lemma NamesDiffer(name: string)
    ensures NameOf(name) == Method <==> name == ":method"
    ensures NameOf(name) == Path <==> name == ":path"
    ensures NameOf(name) == Status <==> name == ":status"
    ensures NameOf(name) == ContentType <==> name == "content-type"
    ensures NameOf(name) == ContentEncoding <==> name == "content-encoding"
    ensures NameOf(name) == GrpcStatus <==> name == "grpc-status"
    ensures NameOf(name) == GrpcMessage <==> name == "grpc-message"
  {
    assert ":method"[1] == 'm' && ":path"[1] == 'p' && ":status"[1] == 's';
    assert "content-type"[8] == 't' && "content-encoding"[8] == 'e' && "grpc-status"[5] == 's';
    assert "content-type"[0] == 'c' && "grpc-status"[0] == 'g' && "grpc-message"[0] == 'g' && "grpc-message"[5] == 'm';
    assert ":method"[0] == ':' && ":path"[0] == ':' && ":status"[0] == ':' && "content-encoding"[0] == 'c';
  }

  /** What one event puts under a name, if anything. */
  function Named(e: Event, name: string, client: bool, server: bool): Option<Text>
    requires e.Touches()
  {
    if e.Block? && From(e, client, server) then LastIn(e.fields, name) else None
  }

  lemma BlockHeaders(env: Env, st: StreamState, e: Event)
    requires e.Block?
    ensures HeadersStep(env, st, e, EntryStep(env, st, e))
  {
    hide ApplyFields, LastIn;
    FieldsApplied(env, st.(requestSeen := st.requestSeen || e.fromClient), e.fromClient, e.fields);
  }

  lemma DataHeaders(env: Env, st: StreamState, e: Event)
    requires e.Data?
    ensures HeadersStep(env, st, e, EntryStep(env, st, e))
  {
    hide Grow;
  }

  /** An event changes just the headers it names. */
  ghost predicate HeadersStep(env: Env, st: StreamState, e: Event, r: StreamState)
    requires e.Touches()
  {
    && r.method_ == OrElse(Named(e, ":method", true, true), st.method_)
    && r.path == OrElse(Named(e, ":path", true, true), st.path)
    && r.status == Reread(Named(e, ":status", true, true), env.parseStatus, st.status)
    && r.grpcStatus == Reread(Named(e, "grpc-status", true, true), env.parseGrpcStatus, st.grpcStatus)
    && r.grpcMessage == OrElse(Named(e, "grpc-message", true, true), st.grpcMessage)
    && r.reqContentType == OrElse(Named(e, "content-type", true, false), st.reqContentType)
    && r.respContentType == OrElse(Named(e, "content-type", false, true), st.respContentType)
    && r.respContentEncoding == OrElse(Named(e, "content-encoding", false, true), st.respContentEncoding)
  }

  lemma ValueStep(hs: seq<Event>, name: string, client: bool, server: bool)
    requires hs != [] && forall e :: e in hs ==> e.Touches()
    ensures forall e :: e in hs[..|hs| - 1] ==> e.Touches()
    ensures LastValue(hs, name, client, server) ==
            OrElse(Named(hs[|hs| - 1], name, client, server), LastValue(hs[..|hs| - 1], name, client, server))
  {
    hide LastIn;
    assert forall x :: x in hs[..|hs| - 1] ==> x in hs;
  }

  ghost predicate HoldsLast(env: Env, hs: seq<Event>, r: StreamState)
    requires forall e :: e in hs ==> e.Touches()
  {
    && r.method_ == LastValue(hs, ":method", true, true)
    && r.path == LastValue(hs, ":path", true, true)
    && r.status == Reread(LastValue(hs, ":status", true, true), env.parseStatus, None)
    && r.grpcStatus == Reread(LastValue(hs, "grpc-status", true, true), env.parseGrpcStatus, None)
    && r.grpcMessage == LastValue(hs, "grpc-message", true, true)
    && r.reqContentType == OwnType(hs, true) && r.respContentType == OwnType(hs, false)
    && r.respContentEncoding == LastValue(hs, "content-encoding", false, true)
  }

  lemma ValuesStep(env: Env, hs: seq<Event>, st: StreamState, r: StreamState)
    requires hs != [] && forall e :: e in hs ==> e.Touches()
    requires forall e :: e in hs[..|hs| - 1] ==> e.Touches()
    requires HoldsLast(env, hs[..|hs| - 1], st) && HeadersStep(env, st, hs[|hs| - 1], r)
    ensures HoldsLast(env, hs, r)
  {
    hide LastValue, Named;
    ValueStep(hs, ":method", true, true);
    ValueStep(hs, ":path", true, true);
    ValueStep(hs, ":status", true, true);
    ValueStep(hs, "grpc-status", true, true);
    ValueStep(hs, "grpc-message", true, true);
    ValueStep(hs, "content-type", true, false);
    ValueStep(hs, "content-type", false, true);
    ValueStep(hs, "content-encoding", false, true);
  }

  /** The headers an entry holds are the last ones sent. */
  lemma {:induction false} EntryHeaders(env: Env, hs: seq<Event>)
    requires forall e :: e in hs ==> e.Touches()
    ensures HoldsLast(env, hs, Entry(env, hs))
    decreases |hs|
  {
    hide EntryStep, HoldsLast, HeadersStep;
    if hs == [] {
      NothingHeld(env);
    } else {
      var front, e := hs[..|hs| - 1], hs[|hs| - 1];
      assert e in hs && forall x :: x in front ==> x in hs;
      EntryHeaders(env, front);
      var st := Entry(env, front);
      if e.Block? {
        BlockHeaders(env, st, e);
      } else {
        DataHeaders(env, st, e);
      }
      ValuesStep(env, hs, st, Entry(env, hs));
    }
  }

  lemma NothingHeld(env: Env)
    ensures HoldsLast(env, [], Entry(env, []))
  {
  }

  lemma GrowTakes(sent: seq<byte>, data: seq<byte>, cap: nat)
    ensures Grow(Take(sent, cap), |sent| > cap, data, cap) == (Take(sent + data, cap), |sent + data| > cap)
  {
    if |sent| <= cap {
      if |data| > cap - |sent| {
        assert (sent + data)[..cap] == sent + data[..cap - |sent|];
      }
    } else {
      assert (sent + data)[..cap] == sent[..cap];
      assert sent[..cap] + data[..0] == sent[..cap];
    }
  }

  lemma SettledFront(hs: seq<Event>, side: bool)
    requires hs != [] && Settled(hs, side)
    ensures Settled(hs[..|hs| - 1], side)
  {
  }

  lemma {:induction false} NoDataNoBody(hs: seq<Event>, side: bool)
    requires forall i :: 0 <= i < |hs| && hs[i].Data? ==> hs[i].fromClient != side
    ensures BodySent(hs, side) == []
    decreases |hs|
  {
    if hs != [] {
      NoDataNoBody(hs[..|hs| - 1], side);
    }
  }

  /** After its DATA began a side's content type stays, so the cap does. */
  lemma TypeStays(hs: seq<Event>, side: bool)
    requires hs != [] && (forall e :: e in hs ==> e.Touches()) && Settled(hs, side)
    ensures (forall e :: e in hs[..|hs| - 1] ==> e.Touches())
    ensures BodySent(hs[..|hs| - 1], side) != [] ==> OwnType(hs, side) == OwnType(hs[..|hs| - 1], side)
    ensures hs[|hs| - 1].Data? ==> OwnType(hs, side) == OwnType(hs[..|hs| - 1], side)
  {
    var front, e := hs[..|hs| - 1], hs[|hs| - 1];
    assert forall x :: x in front ==> x in hs;
    if BodySent(front, side) != [] && e.Block? && e.fromClient == side {
      if forall i :: 0 <= i < |front| && front[i].Data? ==> front[i].fromClient != side {
        NoDataNoBody(front, side);
      } else {
        var i :| 0 <= i < |front| && front[i].Data? && front[i].fromClient == side;
        assert hs[i] == front[i];
      }
    }
  }

  function BodyOf(st: StreamState, fromClient: bool): (seq<byte>, bool) {
    if fromClient then (st.reqBody, st.reqTruncated) else (st.respBody, st.respTruncated)
  }

  lemma StepBody(env: Env, st: StreamState, e: Event, side: bool)
    requires e.Touches()
    ensures BodyOf(EntryStep(env, st, e), side) ==
            if e.Data? && e.fromClient == side then
              Grow(BodyOf(st, side).0, BodyOf(st, side).1, e.body,
                   env.capFor(if side then st.reqContentType else st.respContentType))
            else BodyOf(st, side)
  {
    if e.Block? {
      BlockBody(env, st, e, side);
    } else {
      hide Grow;
    }
  }

  lemma BlockBody(env: Env, st: StreamState, e: Event, side: bool)
    requires e.Block?
    ensures BodyOf(EntryStep(env, st, e), side) == BodyOf(st, side)
  {
    hide ApplyFields, LastIn;
    FieldsApplied(env, st.(requestSeen := st.requestSeen || e.fromClient), e.fromClient, e.fields);
  }

  /** A side's body in the entry is the start of its DATA. */
  lemma {:induction false} EntryBody(env: Env, hs: seq<Event>, side: bool)
    requires (forall e :: e in hs ==> e.Touches()) && Settled(hs, side)
    ensures BodyHolds(env, hs, side, BodyOf(Entry(env, hs), side).0, BodyOf(Entry(env, hs), side).1)
    decreases |hs|
  {
    hide EntryStep, Grow, LastValue;
    if hs != [] {
      var front, e := hs[..|hs| - 1], hs[|hs| - 1];
      assert e in hs && forall x :: x in front ==> x in hs;
      SettledFront(hs, side);
      EntryBody(env, front, side);
      TypeStays(hs, side);
      EntryHeaders(env, front);
      StepBody(env, Entry(env, front), e, side);
      var sent := BodySent(front, side);
      if e.Data? && e.fromClient == side {
        GrowTakes(sent, e.body, env.capFor(OwnType(hs, side)));
      } else {
        assert sent + [] == sent;
      }
    }
  }

  lemma {:induction false} EntryEnds(env: Env, hs: seq<Event>)
    requires forall e :: e in hs ==> e.Touches()
    ensures Entry(env, hs).reqEnded <==> ClientEnded(hs)
    ensures Entry(env, hs).respEnded <==> exists i :: 0 <= i < |hs| && hs[i].EndsResponse()
    ensures !Entry(env, hs).requestEvicted
    decreases |hs|
  {
    hide ApplyFields, Grow;
    if hs != [] {
      var front, e := hs[..|hs| - 1], hs[|hs| - 1];
      assert e in hs && forall x :: x in front ==> x in hs;
      EntryEnds(env, front);
      assert forall i :: 0 <= i < |front| ==> hs[i] == front[i];
      if e.Block? {
        var st := Entry(env, front);
        FieldsApplied(env, st.(requestSeen := st.requestSeen || e.fromClient), e.fromClient, e.fields);
      }
    }
  }

  /** A transaction made of an entry tells what was sent on its stream. */
  lemma EntryTells(env: Env, id: nat, hs: seq<Event>)
    requires forall e :: e in hs ==> e.Touches()
    ensures Tells(env, id, hs, TransactionOf(id, Entry(env, hs)))
  {
    hide Entry, LastValue, BodySent, Settled, ClientEnded;
    EntryHeaders(env, hs);
    EntryEnds(env, hs);
    if Settled(hs, true) {
      EntryBody(env, hs, true);
    }
    if Settled(hs, false) {
      EntryBody(env, hs, false);
    }
  }
}
