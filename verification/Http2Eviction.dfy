/**
 Why two integers are enough to remember every eviction.

 `evictedThrough` and `firstRequest` are all the connection keeps of the entries its bounded table
 dropped. Against the peers RFC 9113 (sections 5.1 and 5.1.1) describes, the two flag exactly the
 transactions whose request half was lost; every other transaction is the one an unbounded table
 would have produced.
 */
module Http2Eviction {
  import opened Bytes
  import opened Options
  import opened Http2Streams

  /** What the events alone say, with no table involved. */
  datatype Protocol = Protocol(
    // Ids a client header block opened while this connection was watched.
    opens: set<nat>,
    // Odd ids any header block or DATA frame named.
    oddSeen: set<nat>,
    // Ids whose response ended.
    ended: set<nat>,
    // Ids ever reset.
    resets: set<nat>,
    // The entry an unbounded table would hold for each id.
    wanted: map<nat, StreamState>)

  const NothingSeen := Protocol({}, {}, {}, {}, map[])

  predicate IsClientBlock(e: Event) {
    e.Block? && e.fromClient
  }

  /** What a peer may send next: client ids are odd and increase, and a response ends once. */
  ghost predicate Conformant(p: Protocol, e: Event) {
    e.Touches() ==>
      && (e.id % 2 == 0 ==> !IsClientBlock(e))
      && (e.id % 2 == 1 && e.id !in p.opens ==>
            if IsClientBlock(e) then forall s :: s in p.oddSeen ==> s < e.id
            // A stream opened before the connection was watched is older than every one opened since.
            else forall o :: o in p.opens ==> e.id < o)
      && (e.EndsResponse() && e.id in p.opens ==> e.id !in p.ended)
  }

  function Wanted(p: Protocol, id: nat): StreamState {
    if id in p.wanted then p.wanted[id] else Fresh(false)
  }

  function Observe(env: Env, p: Protocol, e: Event): Protocol {
    if e.Quiet? then p
    else if e.Reset? then p.(resets := p.resets + {e.id})
    else
      Protocol(if IsClientBlock(e) then p.opens + {e.id} else p.opens,
               if e.id % 2 == 1 then p.oddSeen + {e.id} else p.oddSeen,
               if e.EndsResponse() then p.ended + {e.id} else p.ended,
               p.resets,
               p.wanted[e.id := EntryStep(env, Wanted(p, e.id), e)])
  }

  ghost predicate ConformantRun(env: Env, p: Protocol, es: seq<Event>)
    decreases |es|
  {
    es == [] || (Conformant(p, es[0]) && ConformantRun(env, Observe(env, p, es[0]), es[1..]))
  }

  function ObserveAll(env: Env, p: Protocol, es: seq<Event>): Protocol
    decreases |es|
  {
    if es == [] then p else ObserveAll(env, Observe(env, p, es[0]), es[1..])
  }

  /** Every id whose decoded request half a run's evictions lost. */
  function LostOver(env: Env, t: Tables, es: seq<Event>): set<nat>
    decreases |es|
  {
    if es == [] then {} else Lost(env, t, es[0]) + LostOver(env, Step(env, t, es[0]).0, es[1..])
  }

  // ---- The invariant that ties the tables to the history ----

  ghost predicate ProtocolFacts(p: Protocol) {
    && p.opens <= p.oddSeen
    && (forall id :: id in p.oddSeen ==> id % 2 == 1)
    && (forall s, o :: s in p.oddSeen && s !in p.opens && o in p.opens ==> s < o)
    && (forall id :: id in p.wanted && id % 2 == 1 ==> id in p.oddSeen)
    && (forall id :: id in p.wanted ==> !p.wanted[id].requestEvicted)
    && (forall id :: id in p.opens ==> id in p.wanted && p.wanted[id].requestSeen)
    && (forall id :: id in p.wanted && id !in p.ended ==> !p.wanted[id].respEnded)
  }

  ghost predicate TableFacts(t: Tables, p: Protocol) {
    && t.streams.Keys !! t.orphans.Keys
    && t.reset <= p.resets
    && (forall id :: id in t.streams && id % 2 == 1 ==> id in p.oddSeen)
    && (forall id :: id in t.orphans ==> id in p.oddSeen && UnderMark(t, id) && t.orphans[id].requestEvicted)
    && (forall id :: id in t.streams ==> !t.streams[id].requestEvicted && !UnderMark(t, id))
    && (forall id :: id in t.streams ==> !t.streams[id].respEnded)
    && (forall id :: id in t.orphans ==> !t.orphans[id].respEnded)
    && (forall id :: id in t.streams && t.streams[id].requestSeen ==> id in p.opens)
  }

  ghost predicate MarkFacts(t: Tables, p: Protocol) {
    && (t.evictedThrough != 0 ==> t.evictedThrough in p.opens && t.firstRequest != 0)
    && (t.firstRequest != 0 ==> t.firstRequest in p.opens)
    && (t.firstRequest == 0 ==> forall id :: id in t.streams ==> !t.streams[id].requestSeen)
    && (forall id :: id in p.opens && id !in p.resets ==> t.firstRequest != 0 && t.firstRequest <= id)
  }

  /** An open stream is either held as an unbounded table would hold it, or was lost. */
  ghost predicate HeldOrLost(t: Tables, p: Protocol, lost: set<nat>) {
    && lost <= p.opens
    && (forall id :: id in lost ==> id <= t.evictedThrough)
    && (forall id :: id in p.opens && id !in p.resets && id !in p.ended ==>
          id in lost || (id in t.streams && t.streams[id] == Wanted(p, id)))
  }

  ghost predicate Exact(t: Tables, p: Protocol, lost: set<nat>) {
    ProtocolFacts(p) && TableFacts(t, p) && MarkFacts(t, p) && HeldOrLost(t, p, lost)
  }

  // ---- One entry ----

  predicate SameFlags(a: StreamState, b: StreamState) {
    && a.requestSeen == b.requestSeen && a.requestEvicted == b.requestEvicted
    && a.reqEnded == b.reqEnded && a.respEnded == b.respEnded
  }

  lemma HeaderKeeps(env: Env, st: StreamState, fromClient: bool, name: HeaderName, value: Text)
    ensures SameFlags(ApplyHeader(env, st, fromClient, name, value), st)
  {
    match name
    case Method =>
    case Path =>
    case Status =>
    case ContentType =>
    case ContentEncoding =>
    case GrpcStatus =>
    case GrpcMessage =>
    case Unread =>
  }

  lemma {:induction false} FieldsKeep(env: Env, st: StreamState, fromClient: bool, fields: seq<Field>)
    ensures SameFlags(ApplyFields(env, st, fromClient, fields), st)
  {
    if fields != [] {
      var front := fields[..|fields| - 1];
      FieldsKeep(env, st, fromClient, front);
      var (name, value) := fields[|fields| - 1];
      HeaderKeeps(env, ApplyFields(env, st, fromClient, front), fromClient, NameOf(name), value);
    }
  }

  lemma EntryKeeps(env: Env, st: StreamState, e: Event)
    requires e.Touches()
    ensures var st1 := EntryStep(env, st, e);
            && st1.requestSeen == (st.requestSeen || IsClientBlock(e))
            && st1.requestEvicted == st.requestEvicted
            && st1.respEnded == (st.respEnded || e.EndsResponse())
  {
    if e.Block? {
      FieldsKeep(env, st.(requestSeen := st.requestSeen || e.fromClient), e.fromClient, e.fields);
    }
  }

  // ---- Preservation ----

  lemma ObserveKeeps(env: Env, p: Protocol, e: Event)
    requires ProtocolFacts(p) && Conformant(p, e)
    ensures ProtocolFacts(Observe(env, p, e))
  {
    if e.Touches() {
      EntryKeeps(env, Wanted(p, e.id), e);
    }
  }

  /** A stream the client has just opened lies above the mark and in neither table. */
  lemma OpeningIsFresh(t: Tables, p: Protocol, lost: set<nat>, e: Event)
    requires Exact(t, p, lost) && Conformant(p, e)
    requires IsClientBlock(e) && e.id !in p.opens
    ensures e.id > t.evictedThrough && e.id > t.firstRequest
    ensures e.id !in t.streams && e.id !in t.orphans && e.id !in p.wanted
  {
  }

  /** Remembering the first request changes nothing the tables hold. */
  lemma NotingKeeps(env: Env, t: Tables, p: Protocol, lost: set<nat>, e: Event)
    requires Exact(t, p, lost) && Conformant(p, e)
    requires e.Touches() && e.id !in t.reset
    ensures TableFacts(NoteFirst(t, e), Observe(env, p, e))
    ensures MarkFacts(NoteFirst(t, e), Observe(env, p, e))
  {
    if IsClientBlock(e) && e.id !in p.opens {
      OpeningIsFresh(t, p, lost, e);
    }
  }

  lemma StoreKeeps(t: Tables, p: Protocol, id: nat, st: StreamState)
    requires TableFacts(t, p) && MarkFacts(t, p)
    requires id % 2 == 1 ==> id in p.oddSeen
    requires st.requestEvicted == Lookup(t, id).requestEvicted && !st.respEnded
    requires st.requestSeen && !IsOrphan(t, id) ==> id in p.opens && t.firstRequest != 0
    ensures TableFacts(Store(t, id, st), p) && MarkFacts(Store(t, id, st), p)
  {
  }

  lemma DropKeeps(t: Tables, p: Protocol, id: nat)
    requires TableFacts(t, p) && MarkFacts(t, p)
    ensures var t1 := t.(streams := t.streams - {id}, orphans := t.orphans - {id});
            TableFacts(t1, p) && MarkFacts(t1, p)
  {
  }

  lemma StoreThenDrop(t: Tables, id: nat, st: StreamState)
    requires t.streams.Keys !! t.orphans.Keys
    ensures Drop(Store(t, id, st), id) == t.(streams := t.streams - {id}, orphans := t.orphans - {id})
  {
  }

  lemma TouchKeepsTables(env: Env, t: Tables, p: Protocol, lost: set<nat>, e: Event)
    requires Exact(t, p, lost) && Conformant(p, e)
    requires e.Touches() && e.id !in t.reset
    ensures TableFacts(ApplyEvent(env, t, e).0, Observe(env, p, e))
    ensures MarkFacts(ApplyEvent(env, t, e).0, Observe(env, p, e))
  {
    hide EntryStep, TransactionOf;
    NotingKeeps(env, t, p, lost, e);
    var t1, p1 := NoteFirst(t, e), Observe(env, p, e);
    var st := EntryStep(env, Lookup(t1, e.id), e);
    EntryKeeps(env, Lookup(t1, e.id), e);
    if e.endStream && st.respEnded {
      StoreThenDrop(t1, e.id, st);
      DropKeeps(t1, p1, e.id);
    } else {
      StoreKeeps(t1, p1, e.id, st);
    }
  }

  lemma TouchKeepsHeld(env: Env, t: Tables, p: Protocol, lost: set<nat>, e: Event)
    requires Exact(t, p, lost) && Conformant(p, e)
    requires e.Touches() && e.id !in t.reset
    ensures HeldOrLost(ApplyEvent(env, t, e).0, Observe(env, p, e), lost)
  {
    hide EntryStep, TransactionOf;
    var t1 := NoteFirst(t, e);
    EntryKeeps(env, Lookup(t1, e.id), e);
    if IsClientBlock(e) && e.id !in p.opens {
      OpeningIsFresh(t, p, lost, e);
    }
  }

  lemma EventKeeps(env: Env, t: Tables, p: Protocol, lost: set<nat>, e: Event)
    requires Exact(t, p, lost) && Conformant(p, e)
    ensures Exact(ApplyEvent(env, t, e).0, Observe(env, p, e), lost)
  {
    hide ProtocolFacts, TableFacts, MarkFacts, HeldOrLost, ApplyEvent, Observe, Conformant;
    ObserveKeeps(env, p, e);
    if e.Touches() && e.id !in t.reset {
      TouchKeepsTables(env, t, p, lost, e);
      TouchKeepsHeld(env, t, p, lost, e);
    } else {
      SilentKeeps(env, t, p, lost, e);
    }
  }

  /** A reset, a frame of a reset stream, and a frame that says nothing. */
  lemma SilentKeeps(env: Env, t: Tables, p: Protocol, lost: set<nat>, e: Event)
    requires Exact(t, p, lost) && Conformant(p, e)
    requires e.Touches() ==> e.id in t.reset
    ensures TableFacts(ApplyEvent(env, t, e).0, Observe(env, p, e))
    ensures MarkFacts(ApplyEvent(env, t, e).0, Observe(env, p, e))
    ensures HeldOrLost(ApplyEvent(env, t, e).0, Observe(env, p, e), lost)
  {
    hide EntryStep, TransactionOf, Conformant, Exact, TableFacts, MarkFacts, HeldOrLost;
    match e {
      case Quiet => ExactParts(t, p, lost);
      case Reset(id) => ResetKeeps(env, t, p, lost, id);
      case Block(_, _, _, _) => IgnoredKeeps(env, t, p, lost, e);
      case Data(_, _, _, _) => IgnoredKeeps(env, t, p, lost, e);
    }
  }

  lemma ExactParts(t: Tables, p: Protocol, lost: set<nat>)
    requires Exact(t, p, lost)
    ensures TableFacts(t, p) && MarkFacts(t, p) && HeldOrLost(t, p, lost)
  {
  }

  lemma ResetKeeps(env: Env, t: Tables, p: Protocol, lost: set<nat>, id: nat)
    requires Exact(t, p, lost)
    ensures TableFacts(ApplyEvent(env, t, Reset(id)).0, Observe(env, p, Reset(id)))
    ensures MarkFacts(ApplyEvent(env, t, Reset(id)).0, Observe(env, p, Reset(id)))
    ensures HeldOrLost(ApplyEvent(env, t, Reset(id)).0, Observe(env, p, Reset(id)), lost)
  {
    hide EntryStep, ProtocolFacts;
  }

  lemma IgnoredKeeps(env: Env, t: Tables, p: Protocol, lost: set<nat>, e: Event)
    requires Exact(t, p, lost) && Conformant(p, e) && e.Touches() && e.id in t.reset
    ensures ApplyEvent(env, t, e).0 == t
    ensures TableFacts(t, Observe(env, p, e)) && MarkFacts(t, Observe(env, p, e))
    ensures HeldOrLost(t, Observe(env, p, e), lost)
  {
    hide EntryStep, UnderMark;
    EntryKeeps(env, Wanted(p, e.id), e);
  }

  lemma EvictKeepsMark(env: Env, t: Tables, p: Protocol, lost: set<nat>)
    requires Exact(t, p, lost)
    ensures MarkFacts(Evict(env, t), p)
    ensures HeldOrLost(Evict(env, t), p, lost + Trimmed(t.streams, TableCap(env)))
  {
    var cap := TableCap(env);
    EvictStreamsKeepsHighest(t.streams, t.evictedThrough, cap);
    TrimmedIsWhatIsLost(t.streams, t.evictedThrough, cap);
    MarkIsHighestLost(t.streams, t.evictedThrough, cap);
  }

  lemma EvictKeepsTables(env: Env, t: Tables, p: Protocol, lost: set<nat>)
    requires Exact(t, p, lost)
    ensures TableFacts(Evict(env, t), p)
  {
    EvictionFacts(env, t);
    var t1 := Evict(env, t);
    forall id | id in t1.streams
      ensures !UnderMark(t1, id)
    {
      // The mark rose, if at all, to a lost id, and lost ids lie below every kept one.
      assert id in t.streams && !UnderMark(t, id);
    }
  }

  lemma EvictKeeps(env: Env, t: Tables, p: Protocol, lost: set<nat>)
    requires Exact(t, p, lost)
    ensures Exact(Evict(env, t), p, lost + Trimmed(t.streams, TableCap(env)))
  {
    hide Evict, Trimmed, TableFacts, MarkFacts, HeldOrLost, ProtocolFacts;
    EvictKeepsMark(env, t, p, lost);
    EvictKeepsTables(env, t, p, lost);
  }

  lemma StepKeeps(env: Env, t: Tables, p: Protocol, lost: set<nat>, e: Event)
    requires Exact(t, p, lost) && Conformant(p, e)
    ensures Exact(Step(env, t, e).0, Observe(env, p, e), lost + Lost(env, t, e))
  {
    hide Exact, Observe, Conformant, ApplyEvent, Evict, Trimmed;
    EventKeeps(env, t, p, lost, e);
    EvictKeeps(env, ApplyEvent(env, t, e).0, Observe(env, p, e), lost);
  }

  lemma {:induction false} RunKeeps(env: Env, t: Tables, p: Protocol, lost: set<nat>, es: seq<Event>)
    requires Exact(t, p, lost) && ConformantRun(env, p, es)
    ensures Exact(Run(env, t, es).0, ObserveAll(env, p, es), lost + LostOver(env, t, es))
    decreases |es|
  {
    hide Exact, Step, Observe, Conformant, Lost;
    if es != [] {
      StepKeeps(env, t, p, lost, es[0]);
      RunKeeps(env, Step(env, t, es[0]).0, Observe(env, p, es[0]), lost + Lost(env, t, es[0]), es[1..]);
      assert lost + Lost(env, t, es[0]) + LostOver(env, Step(env, t, es[0]).0, es[1..]) == lost + LostOver(env, t, es);
    } else {
      assert lost + {} == lost;
    }
  }

  // ---- The result ----

  /** A transaction an event completed, judged against everything before it. */
  ghost predicate Faithful(env: Env, before: seq<Event>, e: Event, tx: Transaction) {
    var p := ObserveAll(env, NothingSeen, before);
    && e.EndsResponse() && tx.streamId == e.id
    && (e.id !in p.opens ==> !tx.requestEvicted)
    && (e.id in p.opens && e.id !in p.resets ==>
          && (tx.requestEvicted <==> e.id in LostOver(env, EmptyTables, before))
          && (!tx.requestEvicted ==> tx == TransactionOf(e.id, EntryStep(env, Wanted(p, e.id), e))))
  }

  /** The transaction an event completes, judged against the history. */
  lemma TransactionIsExact(env: Env, t: Tables, p: Protocol, lost: set<nat>, e: Event, tx: Transaction)
    requires Exact(t, p, lost) && Conformant(p, e)
    requires tx in ApplyEvent(env, t, e).1.transactions
    ensures e.EndsResponse() && tx.streamId == e.id
    ensures e.id !in p.opens ==> !tx.requestEvicted
    ensures e.id in p.opens && e.id !in p.resets ==>
              && (tx.requestEvicted <==> e.id in lost)
              && (!tx.requestEvicted ==> tx == TransactionOf(e.id, EntryStep(env, Wanted(p, e.id), e)))
  {
    hide EntryStep;
    EntryKeeps(env, Lookup(NoteFirst(t, e), e.id), e);
  }

  /**
   Over every conformant run: the transaction the next event completes says its request was evicted
   exactly when an earlier eviction lost that request, and otherwise it is the transaction an unbounded
   table would have produced. Streams opened before the run, and pushed ones, are never flagged.
   */
  lemma EvictionIsExact(env: Env, es: seq<Event>, e: Event, tx: Transaction)
    requires ConformantRun(env, NothingSeen, es)
    requires var p := ObserveAll(env, NothingSeen, es); Conformant(p, e)
    requires tx in ApplyEvent(env, Run(env, EmptyTables, es).0, e).1.transactions
    ensures Faithful(env, es, e, tx)
  {
    hide Exact, Conformant, Observe, ApplyEvent, EntryStep, TransactionOf, Run, LostOver, ConformantRun, ObserveAll;
    var lost := LostOver(env, EmptyTables, es);
    EmptyIsExact();
    RunKeeps(env, EmptyTables, NothingSeen, {}, es);
    assert {} + lost == lost;
    TransactionIsExact(env, Run(env, EmptyTables, es).0, ObserveAll(env, NothingSeen, es), lost, e, tx);
  }

  lemma EmptyIsExact()
    ensures Exact(EmptyTables, NothingSeen, {})
  {
  }
}
