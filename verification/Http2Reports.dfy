/** Every stream that ends is reported: announced once if the client ended its side, and told in one transaction. */
module Http2Reports {
  import opened Bytes
  import opened Options
  import opened Http2Streams
  import opened Http2Eviction
  import opened Http2Feed
  import opened Http2Headers
  import opened Http2Transactions

  function TransactionsOn(txs: seq<Transaction>, id: nat): seq<Transaction> {
    if txs == [] then []
    else (if txs[0].streamId == id then [txs[0]] else []) + TransactionsOn(txs[1..], id)
  }

  function Times(ids: seq<nat>, id: nat): nat {
    if ids == [] then 0 else (if ids[0] == id then 1 else 0) + Times(ids[1..], id)
  }

  lemma {:induction false} TransactionsOnConcat(a: seq<Transaction>, b: seq<Transaction>, id: nat)
    ensures TransactionsOn(a + b, id) == TransactionsOn(a, id) + TransactionsOn(b, id)
  {
    if a == [] {
      assert a + b == b;
    } else {
      assert (a + b)[1..] == a[1..] + b;
      TransactionsOnConcat(a[1..], b, id);
      Assoc(if a[0].streamId == id then [a[0]] else [], TransactionsOn(a[1..], id), TransactionsOn(b, id));
    }
  }

  lemma {:induction false} TimesConcat(a: seq<nat>, b: seq<nat>, id: nat)
    ensures Times(a + b, id) == Times(a, id) + Times(b, id)
  {
    if a == [] {
      assert a + b == b;
    } else {
      assert (a + b)[1..] == a[1..] + b;
      TimesConcat(a[1..], b, id);
    }
  }

  // ---- A table with room ----

  /** The streams named are few enough for the table, so none was ever evicted. */
  ghost predicate Roomy(env: Env, t: Tables, ids: set<nat>) {
    && |ids| <= TableCap(env) && t.streams.Keys <= ids
    && t.orphans == map[] && t.evictedThrough == 0
  }

  ghost predicate Within(es: seq<Event>, ids: set<nat>) {
    forall e :: e in es && e.Touches() ==> e.id in ids
  }

  predicate NoReset(es: seq<Event>, id: nat) {
    forall e :: e in es && e.Reset? ==> e.id != id
  }

  lemma NothingEvicted(env: Env, t: Tables, ids: set<nat>)
    requires Roomy(env, t, ids)
    ensures Evict(env, t) == t
  {
    Fewer(t.streams.Keys, ids);
    assert |t.streams.Keys| == |t.streams|;
  }

  lemma Fewer(a: set<nat>, b: set<nat>)
    requires a <= b
    ensures |a| <= |b|
  {
    Subset(a, b);
  }

  lemma NoOrphans(env: Env, t: Tables, ids: set<nat>, id: nat)
    requires Roomy(env, t, ids)
    ensures !IsOrphan(t, id) && Lookup(t, id) == if id in t.streams then t.streams[id] else Fresh(false)
  {
  }

  lemma EventKeepsRoomy(env: Env, t: Tables, ids: set<nat>, e: Event)
    requires Roomy(env, t, ids) && (e.Touches() ==> e.id in ids)
    ensures Roomy(env, ApplyEvent(env, t, e).0, ids)
    ensures Step(env, t, e) == ApplyEvent(env, t, e)
  {
    hide EntryStep, TableCap, KeepHighest;
    NothingEvicted(env, ApplyEvent(env, t, e).0, ids);
  }

  /** An event elsewhere leaves a stream's entry as it is and says nothing of the stream. */
  lemma OtherEvent(env: Env, t: Tables, ids: set<nat>, e: Event, id: nat)
    requires Roomy(env, t, ids) && !On(e, id) && (e.Reset? ==> e.id != id) && id !in t.reset
    ensures var (t1, out) := ApplyEvent(env, t, e);
            && (id in t1.streams <==> id in t.streams) && (id in t.streams ==> t1.streams[id] == t.streams[id])
            && id !in t1.reset
            && TransactionsOn(out.transactions, id) == [] && Times(out.announced, id) == 0
  {
    hide EntryStep, TableCap, KeepHighest;
  }

  /** An event on a stream moves its entry on, announces the client's end the first time, and reports the end. */
  lemma OwnEvent(env: Env, t: Tables, ids: set<nat>, e: Event, id: nat)
    requires Roomy(env, t, ids) && On(e, id) && id !in t.reset
    ensures var before := if id in t.streams then t.streams[id] else Fresh(false);
            var st := EntryStep(env, before, e);
            var (t1, out) := ApplyEvent(env, t, e);
            && t1.reset == t.reset
            && out.announced == (if e.endStream && e.fromClient && !before.reqEnded then [id] else [])
            && if e.endStream && st.respEnded then out.transactions == [TransactionOf(id, st)]
               else out.transactions == [] && id in t1.streams && t1.streams[id] == st
  {
    hide EntryStep, TableCap, KeepHighest;
    NoOrphans(env, NoteFirst(t, e), ids, id);
  }

  // ---- One stream in a run ----

  /** Up to here `hs` was sent on the stream, and its response has not ended. */
  ghost predicate Open(env: Env, t: Tables, out: Output, hs: seq<Event>, id: nat)
    requires forall e :: e in hs ==> e.Touches()
  {
    && id !in t.reset
    && (if hs == [] then id !in t.streams else id in t.streams && t.streams[id] == Entry(env, hs))
    && TransactionsOn(out.transactions, id) == []
    && Times(out.announced, id) == if ClientEnded(hs) then 1 else 0
  }

  predicate NotEnded(hs: seq<Event>) {
    forall i :: 0 <= i < |hs| ==> !hs[i].EndsResponse()
  }

  /** The response's end comes last. */
  predicate EndsLast(hs: seq<Event>) {
    hs != [] && hs[|hs| - 1].EndsResponse() && NotEnded(hs[..|hs| - 1])
  }

  lemma RunLast(env: Env, es: seq<Event>)
    requires es != []
    ensures var (t, out) := Run(env, EmptyTables, es[..|es| - 1]);
            var (t1, o1) := Step(env, t, es[|es| - 1]);
            Run(env, EmptyTables, es) == (t1, out.Then(o1))
  {
    hide Step;
    var front, e := es[..|es| - 1], es[|es| - 1];
    assert es == front + [e];
    RunSplit(env, EmptyTables, front, [e]);
    var t := Run(env, EmptyTables, front).0;
    assert [e][1..] == [];
    ThenNothing(Step(env, t, e).1);
  }

  lemma FrontOf(es: seq<Event>, ids: set<nat>, id: nat)
    requires es != [] && Within(es, ids) && NoReset(es, id)
    ensures Within(es[..|es| - 1], ids) && NoReset(es[..|es| - 1], id) && es[|es| - 1] in es
  {
    assert forall x :: x in es[..|es| - 1] ==> x in es;
  }

  lemma EndedStep(hs: seq<Event>, e: Event)
    ensures ClientEnded(hs + [e]) <==> ClientEnded(hs) || (e.Touches() && e.endStream && e.fromClient)
  {
    var all := hs + [e];
    assert all[|hs|] == e;
    if ClientEnded(hs) {
      var i :| 0 <= i < |hs| && hs[i].Touches() && hs[i].endStream && hs[i].fromClient;
      assert all[i] == hs[i];
    }
  }

  lemma OtherKeepsOpen(env: Env, t: Tables, out: Output, ids: set<nat>, hs: seq<Event>, e: Event, id: nat)
    requires (forall x :: x in hs ==> x.Touches()) && Open(env, t, out, hs, id)
    requires Roomy(env, t, ids) && !On(e, id) && (e.Reset? ==> e.id != id)
    ensures var (t1, o1) := ApplyEvent(env, t, e); Open(env, t1, out.Then(o1), hs, id)
  {
    hide ApplyEvent, ClientEnded, Entry;
    OtherEvent(env, t, ids, e, id);
    var o1 := ApplyEvent(env, t, e).1;
    TransactionsOnConcat(out.transactions, o1.transactions, id);
    TimesConcat(out.announced, o1.announced, id);
  }

  lemma OwnKeepsOpen(env: Env, t: Tables, out: Output, ids: set<nat>, hs: seq<Event>, e: Event, id: nat)
    requires (forall x :: x in hs ==> x.Touches()) && Open(env, t, out, hs, id) && NotEnded(hs)
    requires Roomy(env, t, ids) && On(e, id)
    ensures var (t1, o1) := ApplyEvent(env, t, e);
            var all := hs + [e];
            && Times(out.Then(o1).announced, id) == (if ClientEnded(all) then 1 else 0)
            && if e.EndsResponse() then
                 TransactionsOn(out.Then(o1).transactions, id) == [TransactionOf(id, Entry(env, all))]
               else Open(env, t1, out.Then(o1), all, id)
  {
    hide ApplyEvent, ClientEnded, EntryStep;
    var all := hs + [e];
    assert all[..|all| - 1] == hs && all[|all| - 1] == e;
    assert Entry(env, all) == EntryStep(env, Entry(env, hs), e);
    EntryEnds(env, hs);
    EntryEnds(env, all);
    EndedStep(hs, e);
    if all[|hs|].EndsResponse() {
    } else {
      assert forall i :: 0 <= i < |hs| ==> all[i] == hs[i];
    }
    OwnEvent(env, t, ids, e, id);
    var o1 := ApplyEvent(env, t, e).1;
    TransactionsOnConcat(out.transactions, o1.transactions, id);
    TimesConcat(out.announced, o1.announced, id);
    OneOn(o1, id);
  }

  lemma OneOn(out: Output, id: nat)
    requires |out.transactions| <= 1 && |out.announced| <= 1
    ensures out.transactions == [] ==> TransactionsOn(out.transactions, id) == []
    ensures |out.transactions| == 1 && out.transactions[0].streamId == id ==>
              TransactionsOn(out.transactions, id) == out.transactions
    ensures out.announced == [] ==> Times(out.announced, id) == 0
    ensures out.announced == [id] ==> Times(out.announced, id) == 1
  {
    assert |out.transactions| == 1 ==> out.transactions[1..] == [];
    assert |out.announced| == 1 ==> out.announced[1..] == [];
  }

  lemma {:induction false} OpenUntilEnd(env: Env, es: seq<Event>, ids: set<nat>, id: nat)
    requires |ids| <= TableCap(env) && Within(es, ids) && NoReset(es, id) && NotEnded(OnStream(es, id))
    ensures Roomy(env, Run(env, EmptyTables, es).0, ids)
    ensures Open(env, Run(env, EmptyTables, es).0, Run(env, EmptyTables, es).1, OnStream(es, id), id)
    decreases |es|
  {
    hide Run, Open, Roomy, ApplyEvent, Step, Within, NoReset;
    if es == [] {
      StartOpen(env, ids, id);
    } else {
      var front, e := es[..|es| - 1], es[|es| - 1];
      FrontOf(es, ids, id);
      NotEndedFront(es, id);
      OpenUntilEnd(env, front, ids, id);
      RunLast(env, es);
      var (t, out) := Run(env, EmptyTables, front);
      ThatIsIn(es, ids, id, e);
      EventKeepsRoomy(env, t, ids, e);
      if On(e, id) {
        LastIsNoEnd(es, id);
        OwnKeepsOpen(env, t, out, ids, OnStream(front, id), e, id);
      } else {
        assert OnStream(front, id) + [] == OnStream(front, id);
        OtherKeepsOpen(env, t, out, ids, OnStream(front, id), e, id);
      }
    }
  }

  lemma StartOpen(env: Env, ids: set<nat>, id: nat)
    requires |ids| <= TableCap(env)
    ensures Roomy(env, Run(env, EmptyTables, []).0, ids)
    ensures Open(env, Run(env, EmptyTables, []).0, Run(env, EmptyTables, []).1, OnStream([], id), id)
  {
  }

  lemma NotEndedFront(es: seq<Event>, id: nat)
    requires es != [] && NotEnded(OnStream(es, id))
    ensures NotEnded(OnStream(es[..|es| - 1], id))
  {
    var front := OnStream(es[..|es| - 1], id);
    assert forall i :: 0 <= i < |front| ==> OnStream(es, id)[i] == front[i];
  }

  lemma LastIsNoEnd(es: seq<Event>, id: nat)
    requires es != [] && On(es[|es| - 1], id) && NotEnded(OnStream(es, id))
    ensures !es[|es| - 1].EndsResponse()
  {
    var hs := OnStream(es, id);
    assert hs[|hs| - 1] == es[|es| - 1];
  }

  lemma ThatIsIn(es: seq<Event>, ids: set<nat>, id: nat, e: Event)
    requires e in es && Within(es, ids) && NoReset(es, id)
    ensures (e.Touches() ==> e.id in ids) && (e.Reset? ==> e.id != id)
  {
  }

  /** The stream was told, and its id is not among those reset. */
  ghost predicate Told(env: Env, out: Output, hs: seq<Event>, id: nat)
    requires forall e :: e in hs ==> e.Touches()
  {
    && TransactionsOn(out.transactions, id) == [TransactionOf(id, Entry(env, hs))]
    && Times(out.announced, id) == if ClientEnded(hs) then 1 else 0
  }

  /** An event that is not on a stream tells nothing of it, from any tables. */
  lemma ElsewhereIsSilent(env: Env, t: Tables, e: Event, id: nat)
    requires !On(e, id)
    ensures TransactionsOn(Step(env, t, e).1.transactions, id) == [] && Times(Step(env, t, e).1.announced, id) == 0
  {
    hide EntryStep, TableCap, KeepHighest, Lookup, Store, Drop;
    assert Step(env, t, e).1 == ApplyEvent(env, t, e).1;
  }

  lemma {:induction false} ToldAtEnd(env: Env, es: seq<Event>, ids: set<nat>, id: nat)
    requires |ids| <= TableCap(env) && Within(es, ids) && NoReset(es, id) && EndsLast(OnStream(es, id))
    ensures Told(env, Run(env, EmptyTables, es).1, OnStream(es, id), id)
    decreases |es|
  {
    hide Run, ApplyEvent, Step, Within, NoReset, Entry, ClientEnded, Roomy, Open;
    var front, e := es[..|es| - 1], es[|es| - 1];
    var hs := OnStream(front, id);
    FrontOf(es, ids, id);
    RunLast(env, es);
    var (t, out) := Run(env, EmptyTables, front);
    if On(e, id) {
      var all := hs + [e];
      assert all[..|all| - 1] == hs && all[|all| - 1] == e;
      OpenUntilEnd(env, front, ids, id);
      ThatIsIn(es, ids, id, e);
      EventKeepsRoomy(env, t, ids, e);
      OwnKeepsOpen(env, t, out, ids, hs, e, id);
    } else {
      assert hs + [] == hs;
      ToldAtEnd(env, front, ids, id);
      ElsewhereIsSilent(env, t, e, id);
      var o1 := Step(env, t, e).1;
      TransactionsOnConcat(out.transactions, o1.transactions, id);
      TimesConcat(out.announced, o1.announced, id);
    }
  }

  /**
   In any run whose streams fit the table, a stream that is not reset and whose response ends is told in exactly
   one transaction, which says what both sides sent on it, and announced once if the client ended its side.
   */
  lemma StreamIsReported(env: Env, es: seq<Event>, ids: set<nat>, id: nat) returns (tx: Transaction)
    requires |ids| <= TableCap(env) && Within(es, ids) && NoReset(es, id) && EndsLast(OnStream(es, id))
    ensures var out, hs := Run(env, EmptyTables, es).1, OnStream(es, id);
            && TransactionsOn(out.transactions, id) == [tx] && Tells(env, id, hs, tx) && !tx.requestEvicted
            && Times(out.announced, id) == if ClientEnded(hs) then 1 else 0
  {
    hide Run, Entry, ClientEnded, Within, NoReset, EndsLast, Tells;
    var hs := OnStream(es, id);
    ToldAtEnd(env, es, ids, id);
    EntryTells(env, id, hs);
    EntryEnds(env, hs);
    tx := TransactionOf(id, Entry(env, hs));
  }

  // ---- With eviction: what an unflagged transaction tells ----

  lemma {:induction false} ObserveLast(env: Env, p: Protocol, es: seq<Event>, e: Event)
    ensures ObserveAll(env, p, es + [e]) == Observe(env, ObserveAll(env, p, es), e)
    decreases |es|
  {
    hide Observe;
    if es == [] {
      assert es + [e] == [e] && [e][1..] == [];
    } else {
      assert (es + [e])[0] == es[0] && (es + [e])[1..] == es[1..] + [e];
      ObserveLast(env, Observe(env, p, es[0]), es[1..], e);
    }
  }

  /** The entry an unbounded table would hold is the stream's own history. */
  lemma {:induction false} WantedIsEntry(env: Env, es: seq<Event>, id: nat)
    ensures Wanted(ObserveAll(env, NothingSeen, es), id) == Entry(env, OnStream(es, id))
    decreases |es|
  {
    hide EntryStep;
    if es != [] {
      var front, e := es[..|es| - 1], es[|es| - 1];
      assert es == front + [e];
      ObserveLast(env, NothingSeen, front, e);
      WantedIsEntry(env, front, id);
      var hs := OnStream(front, id);
      if On(e, id) {
        var all := hs + [e];
        assert all[..|all| - 1] == hs && all[|all| - 1] == e;
      } else {
        assert hs + [] == hs;
      }
    }
  }

  /**
   From bytes to report, evictions included: of conformant peers, a transaction of a stream opened since the watch
   began and never reset is flagged exactly when its request half was evicted; when it is not flagged it says what
   both sides sent on the stream, up to the event that completed it.
   */
  lemma TransactionsTell(env: Env, inputs: seq<Read>, tx: Transaction) returns (n: nat)
    requires ConformantRun(env, NothingSeen, EventsOfReads(env, NewCarver, EmptyAssembler, inputs))
    requires tx in FeedAll(env, NewConn, inputs).1.transactions
    ensures var es := EventsOfReads(env, NewCarver, EmptyAssembler, inputs);
      && n < |es|
      && var p, id := ObserveAll(env, NothingSeen, es[..n]), tx.streamId;
      id in p.opens && id !in p.resets ==>
        && (tx.requestEvicted <==> id in LostOver(env, EmptyTables, es[..n]))
        && (!tx.requestEvicted ==> Tells(env, id, OnStream(es[..n + 1], id), tx))
  {
    hide ConformantRun, EventsOfReads, FeedAll, ObserveAll, EntryStep, TransactionOf, LostOver, Tells;
    n := TransactionsAreFaithful(env, inputs, tx);
    var es := EventsOfReads(env, NewCarver, EmptyAssembler, inputs);
    var before, e, id := es[..n], es[n], tx.streamId;
    var hs := OnStream(before, id);
    var all := hs + [e];
    assert es[..n + 1] == before + [e];
    assert es[..n + 1][..n] == before && es[..n + 1][n] == e;
    assert OnStream(es[..n + 1], id) == all;
    assert all[..|all| - 1] == hs && all[|all| - 1] == e;
    WantedIsEntry(env, before, id);
    EntryTells(env, id, all);
  }
}
