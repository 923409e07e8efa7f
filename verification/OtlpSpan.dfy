/** The size passes as they change one span in place, and the markers they leave on it. */
module OtlpSpan {
  import opened Bytes
  import opened Options
  import opened OtlpAttributes
  import opened OtlpPayloads

  /** A span: its attributes, those of its events and links, and everything no pass touches. */
  datatype SpanData = SpanData(
    attributes: seq<KeyValue>,
    events: seq<seq<KeyValue>>,
    links: seq<seq<KeyValue>>,
    rest: seq<byte>)

  const LIMITATIONS_KEY := "wardex.limitations"
  const REASON_KEY := "wardex.payload_dropped.reason"
  const TRUNCATED := StringValue(Ascii("otlp_attribute_truncated"))
  const REQUEST_CAP := StringValue(Ascii("max_otlp_request_bytes"))

  const PAYLOAD_KEYS: set<string> :=
    {"wardex.input_data", "wardex.output_data", "gen_ai.tool.call.arguments", "gen_ai.tool.call.result"}

  // ---- Markers ----

  /** Where `key` first stands. */
  function IndexOf(kvs: seq<KeyValue>, key: string): (r: Option<nat>)
    ensures match r
            case Some(i) => i < |kvs| && kvs[i].key == key && forall j :: 0 <= j < i ==> kvs[j].key != key
            case None => forall j :: 0 <= j < |kvs| ==> kvs[j].key != key
  {
    if kvs == [] then None
    else if kvs[0].key == key then Some(0)
    else
      match IndexOf(kvs[1..], key)
      case None =>
        assert forall j :: 1 <= j < |kvs| ==> kvs[j] == kvs[1..][j - 1];
        None
      case Some(i) =>
        assert forall j :: 1 <= j < |kvs| ==> kvs[j] == kvs[1..][j - 1];
        Some(i + 1)
  }

  function PushLimitation(attrs: seq<KeyValue>, entry: AnyValue): seq<KeyValue> {
    match IndexOf(attrs, LIMITATIONS_KEY)
    case None => attrs + [KeyValue(LIMITATIONS_KEY, Some(ArrayValue([entry])))]
    case Some(i) =>
      match attrs[i].value
      case Some(ArrayValue(values)) =>
        if entry in values then attrs
        else attrs[i := KeyValue(LIMITATIONS_KEY, Some(ArrayValue(values + [entry])))]
      // Something else squats on the key: overwritten, since two of one key is a coin flip.
      case _ => attrs[i := KeyValue(LIMITATIONS_KEY, Some(ArrayValue([entry])))]
  }

  predicate Marked(attrs: seq<KeyValue>, entry: AnyValue) {
    match Find(attrs, LIMITATIONS_KEY)
    case Some(ArrayValue(values)) => entry in values
    case _ => false
  }

  lemma {:induction false} FindIsFirst(kvs: seq<KeyValue>, key: string)
    ensures Find(kvs, key) == match IndexOf(kvs, key) case Some(i) => kvs[i].value case None => None
  {
    if kvs != [] && kvs[0].key != key {
      FindIsFirst(kvs[1..], key);
    }
  }

  /** The same keys in the same places find the same value at any key whose places hold the same. */
  lemma {:induction false} FindAgrees(a: seq<KeyValue>, b: seq<KeyValue>, key: string)
    requires |a| <= |b|
    requires forall i :: 0 <= i < |a| ==> (a[i].key == key <==> b[i].key == key) && (a[i].key == key ==> a[i] == b[i])
    requires forall i :: |a| <= i < |b| ==> b[i].key != key
    ensures Find(a, key) == Find(b, key)
  {
    if a == [] {
      forall kv | kv in b
        ensures kv.key != key
      {
        var i :| 0 <= i < |b| && b[i] == kv;
      }
      FindNone(b, key);
    } else if a[0].key != key {
      FindAgrees(a[1..], b[1..], key);
    }
  }

  /** The marker is there afterwards, marking twice is marking once, and no other attribute changes. */
  lemma MarkingHolds(attrs: seq<KeyValue>, entry: AnyValue)
    ensures var r := PushLimitation(attrs, entry);
            && Marked(r, entry) && PushLimitation(r, entry) == r
            && (Marked(attrs, entry) <==> r == attrs)
            && (forall key :: key != LIMITATIONS_KEY ==> Find(r, key) == Find(attrs, key))
  {
    var r := PushLimitation(attrs, entry);
    FindIsFirst(attrs, LIMITATIONS_KEY);
    FindIsFirst(r, LIMITATIONS_KEY);
    match IndexOf(attrs, LIMITATIONS_KEY) {
      case None =>
        assert r[|attrs|] == KeyValue(LIMITATIONS_KEY, Some(ArrayValue([entry])));
        assert IndexOf(r, LIMITATIONS_KEY) == Some(|attrs|);
      case Some(i) =>
        assert r[i].key == LIMITATIONS_KEY && forall j :: 0 <= j < i ==> r[j] == attrs[j];
        assert IndexOf(r, LIMITATIONS_KEY) == Some(i);
        if r == attrs {
          assert r[i] == attrs[i];
        }
    }
    forall key | key != LIMITATIONS_KEY
      ensures Find(r, key) == Find(attrs, key)
    {
      FindAgrees(attrs, r, key);
    }
  }

  // ---- Capping a span ----

  function CapLists(lists: seq<seq<KeyValue>>, cap: nat): (seq<seq<KeyValue>>, bool) {
    if lists == [] then ([], false)
    else
      var (head, cut) := CapKvs(lists[0], cap);
      var (tail, more) := CapLists(lists[1..], cap);
      ([head] + tail, cut || more)
  }

  function CapSpan(sp: SpanData, cap: nat): SpanData {
    var (attrs, cut0) := CapKvs(sp.attributes, cap);
    var (events, cut1) := CapLists(sp.events, cap);
    var (links, cut2) := CapLists(sp.links, cap);
    SpanData(if cut0 || cut1 || cut2 then PushLimitation(attrs, TRUNCATED) else attrs, events, links, sp.rest)
  }

  predicate SpanFits(sp: SpanData, cap: nat) {
    && ListFits(sp.attributes, cap)
    && (forall i :: 0 <= i < |sp.events| ==> ListFits(sp.events[i], cap))
    && (forall i :: 0 <= i < |sp.links| ==> ListFits(sp.links[i], cap))
  }

  lemma {:induction false} ListsCutIffOver(lists: seq<seq<KeyValue>>, cap: nat)
    ensures var (r, cut) := CapLists(lists, cap);
            && |r| == |lists|
            && (cut <==> exists i :: 0 <= i < |lists| && !ListFits(lists[i], cap))
            && (cut <==> r != lists)
  {
    if lists != [] {
      ListCutIffOver(lists[0], cap);
      ListsCutIffOver(lists[1..], cap);
      var (r, cut) := CapLists(lists, cap);
      assert lists == [lists[0]] + lists[1..] && r[1..] == CapLists(lists[1..], cap).0;
      assert forall i :: 1 <= i < |lists| ==> lists[i] == lists[1..][i - 1];
      assert forall i :: 0 <= i < |lists[1..]| ==> lists[1..][i] == lists[i + 1];
    }
  }

  /** A span nothing on which is over the cap is left alone; any other is cut, and says so. */
  lemma SpanCutIffOver(sp: SpanData, cap: nat)
    ensures SpanFits(sp, cap) ==> CapSpan(sp, cap) == sp
    ensures !SpanFits(sp, cap) ==> Marked(CapSpan(sp, cap).attributes, TRUNCATED)
    ensures CapSpan(sp, cap).rest == sp.rest
  {
    ListCutIffOver(sp.attributes, cap);
    ListsCutIffOver(sp.events, cap);
    ListsCutIffOver(sp.links, cap);
    MarkingHolds(CapKvs(sp.attributes, cap).0, TRUNCATED);
  }

  // ---- Dropping a payload whole ----

  function Base(key: string): string {
    if |key| >= |ENCODING_SUFFIX| && key[|key| - |ENCODING_SUFFIX|..] == ENCODING_SUFFIX
    then key[..|key| - |ENCODING_SUFFIX|] else key
  }

  predicate IsPayloadKey(key: string) {
    Base(key) in PAYLOAD_KEYS
  }

  function KeepOthers(attrs: seq<KeyValue>): seq<KeyValue> {
    if attrs == [] then []
    else (if IsPayloadKey(attrs[0].key) then [] else [attrs[0]]) + KeepOthers(attrs[1..])
  }

  function SetAttr(attrs: seq<KeyValue>, kv: KeyValue): seq<KeyValue> {
    Without(attrs, {kv.key}) + [kv]
  }

  function DropPayload(sp: SpanData): (SpanData, bool) {
    var kept := KeepOthers(sp.attributes);
    if |kept| == |sp.attributes| then (sp, false)
    else
      (sp.(attributes := SetAttr(PushLimitation(kept, TRUNCATED), KeyValue(REASON_KEY, Some(REQUEST_CAP)))), true)
  }

  lemma {:induction false} KeepOthersHolds(attrs: seq<KeyValue>)
    ensures |KeepOthers(attrs)| <= |attrs|
    ensures |KeepOthers(attrs)| == |attrs| <==> forall kv :: kv in attrs ==> !IsPayloadKey(kv.key)
    ensures forall kv :: kv in KeepOthers(attrs) <==> kv in attrs && !IsPayloadKey(kv.key)
    ensures |KeepOthers(attrs)| == |attrs| ==> KeepOthers(attrs) == attrs
  {
    hide IsPayloadKey;
    if attrs != [] {
      KeepOthersHolds(attrs[1..]);
      assert attrs == [attrs[0]] + attrs[1..];
    }
  }

  lemma {:induction false} OthersReadAsBefore(attrs: seq<KeyValue>, key: string)
    requires !IsPayloadKey(key)
    ensures Find(KeepOthers(attrs), key) == Find(attrs, key)
  {
    hide IsPayloadKey;
    if attrs != [] {
      OthersReadAsBefore(attrs[1..], key);
      var rest := KeepOthers(attrs[1..]);
      if IsPayloadKey(attrs[0].key) {
        assert [] + rest == rest;
      } else {
        assert ([attrs[0]] + rest)[1..] == rest;
      }
    }
  }

  lemma {:induction false} FindSet(attrs: seq<KeyValue>, kv: KeyValue, key: string)
    ensures Find(SetAttr(attrs, kv), key) == if key == kv.key then kv.value else Find(attrs, key)
  {
    if attrs == [] {
      assert [kv][1..] == [];
    } else {
      FindSet(attrs[1..], kv, key);
      var rest := Without(attrs[1..], {kv.key});
      if attrs[0].key != kv.key {
        assert ([attrs[0]] + rest + [kv])[1..] == rest + [kv];
        assert SetAttr(attrs, kv) == [attrs[0]] + rest + [kv];
      } else {
        assert SetAttr(attrs, kv) == rest + [kv];
      }
    }
  }

  lemma ReservedKeysAreNoPayload()
    ensures !IsPayloadKey(LIMITATIONS_KEY) && !IsPayloadKey(REASON_KEY)
  {
    assert LIMITATIONS_KEY[|LIMITATIONS_KEY| - 1] != ENCODING_SUFFIX[|ENCODING_SUFFIX| - 1];
    assert REASON_KEY[|REASON_KEY| - 1] != ENCODING_SUFFIX[|ENCODING_SUFFIX| - 1];
    assert Base(LIMITATIONS_KEY) == LIMITATIONS_KEY by {
      assert LIMITATIONS_KEY[|LIMITATIONS_KEY| - |ENCODING_SUFFIX|..][|ENCODING_SUFFIX| - 1] ==
             LIMITATIONS_KEY[|LIMITATIONS_KEY| - 1];
    }
    assert Base(REASON_KEY) == REASON_KEY by {
      assert REASON_KEY[|REASON_KEY| - |ENCODING_SUFFIX|..][|ENCODING_SUFFIX| - 1] == REASON_KEY[|REASON_KEY| - 1];
    }
    assert LIMITATIONS_KEY[7] == 'l' && REASON_KEY[7] == 'p';
  }

  predicate HasPayload(sp: SpanData) {
    exists kv :: kv in sp.attributes && IsPayloadKey(kv.key)
  }

  /**
   A span's payload goes whole or not at all: no payload attribute or companion of one stays, the marker and
   the name of the limit that removed it are there, and every other attribute reads as before.
   */
  lemma DroppingHolds(sp: SpanData)
    ensures var (r, removed) := DropPayload(sp);
            && (removed <==> HasPayload(sp))
            && (!removed ==> r == sp)
            && !HasPayload(r)
            && r.events == sp.events && r.links == sp.links && r.rest == sp.rest
            && (removed ==>
                  && Marked(r.attributes, TRUNCATED)
                  && Find(r.attributes, REASON_KEY) == Some(REQUEST_CAP)
                  && forall key :: !IsPayloadKey(key) && key != LIMITATIONS_KEY && key != REASON_KEY ==>
                       Find(r.attributes, key) == Find(sp.attributes, key))
  {
    var kept := KeepOthers(sp.attributes);
    var marked := PushLimitation(kept, TRUNCATED);
    var reason := KeyValue(REASON_KEY, Some(REQUEST_CAP));
    KeepOthersHolds(sp.attributes);
    ReservedKeysAreNoPayload();
    hide IsPayloadKey, KeepOthers, Base, Find, LIMITATIONS_KEY, REASON_KEY, REQUEST_CAP, TRUNCATED;
    MarkingHolds(kept, TRUNCATED);
    MarkingAddsNoPayload(kept);
    WithoutKeeps(marked, {REASON_KEY});
    FindSet(marked, reason, REASON_KEY);
    FindSet(marked, reason, LIMITATIONS_KEY);
    DistinctReserved();
    forall key | !IsPayloadKey(key) && key != LIMITATIONS_KEY && key != REASON_KEY
      ensures Find(SetAttr(marked, reason), key) == Find(sp.attributes, key)
    {
      FindSet(marked, reason, key);
      OthersReadAsBefore(sp.attributes, key);
    }
  }

  lemma DistinctReserved()
    ensures LIMITATIONS_KEY != REASON_KEY
  {
    assert LIMITATIONS_KEY[7] == 'l' && REASON_KEY[7] == 'p';
  }

  lemma MarkingAddsNoPayload(attrs: seq<KeyValue>)
    requires forall kv :: kv in attrs ==> !IsPayloadKey(kv.key)
    ensures forall kv :: kv in PushLimitation(attrs, TRUNCATED) ==> !IsPayloadKey(kv.key)
  {
    ReservedKeysAreNoPayload();
    hide IsPayloadKey;
  }

  // ---- The span object ----

  class OtlpSpan {
    var attributes: seq<KeyValue>
    var events: seq<seq<KeyValue>>
    var links: seq<seq<KeyValue>>
    var rest: seq<byte>

    ghost function Value(): SpanData
      reads this
    {
      SpanData(attributes, events, links, rest)
    }

    constructor (sp: SpanData)
      ensures Value() == sp
    {
      attributes, events, links, rest := sp.attributes, sp.events, sp.links, sp.rest;
    }

    method CapAttributes(cap: nat)
      modifies this`attributes, this`events, this`links
      ensures Value() == CapSpan(old(Value()), cap)
    {
      var cut;
      attributes, cut := CapList(attributes, cap);
      var more;
      events, more := CapEach(events, cap);
      cut := cut || more;
      links, more := CapEach(links, cap);
      cut := cut || more;
      // Last, so the marker is never itself cut and an event's loss reaches its span.
      if cut {
        MarkTruncated();
      }
    }

    static method CapEach(lists: seq<seq<KeyValue>>, cap: nat) returns (r: seq<seq<KeyValue>>, cut: bool)
      ensures (r, cut) == CapLists(lists, cap)
    {
      r, cut := [], false;
      var i := 0;
      assert lists[0..] == lists;
      assert [] + CapLists(lists, cap).0 == CapLists(lists, cap).0;
      while i < |lists|
        invariant 0 <= i <= |lists|
        invariant CapLists(lists, cap) == (r + CapLists(lists[i..], cap).0, cut || CapLists(lists[i..], cap).1)
      {
        assert lists[i..][1..] == lists[i + 1..];
        var kvs, was := CapList(lists[i], cap);
        Assoc(r, [kvs], CapLists(lists[i + 1..], cap).0);
        r := r + [kvs];
        cut := cut || was;
        i := i + 1;
      }
      assert r + [] == r;
    }

    method MarkTruncated()
      modifies this`attributes
      ensures attributes == PushLimitation(old(attributes), TRUNCATED)
    {
      var entry := TRUNCATED;
      var i := 0;
      while i < |attributes| && attributes[i].key != LIMITATIONS_KEY
        invariant 0 <= i <= |attributes| && attributes == old(attributes)
        invariant forall j :: 0 <= j < i ==> attributes[j].key != LIMITATIONS_KEY
      {
        i := i + 1;
      }
      if i == |attributes| {
        attributes := attributes + [KeyValue(LIMITATIONS_KEY, Some(ArrayValue([entry])))];
        return;
      }
      var values := [];
      if attributes[i].value.Some? && attributes[i].value.value.ArrayValue? {
        values := attributes[i].value.value.values;
      }
      assert [] + [entry] == [entry];
      if entry !in values {
        attributes := attributes[i := KeyValue(LIMITATIONS_KEY, Some(ArrayValue(values + [entry])))];
      }
    }

    method StripBytes()
      modifies this`attributes, this`events, this`links
      ensures attributes == StripKvs(old(attributes))
      ensures |events| == |old(events)| && forall i :: 0 <= i < |events| ==> events[i] == StripKvs(old(events)[i])
      ensures |links| == |old(links)| && forall i :: 0 <= i < |links| ==> links[i] == StripKvs(old(links)[i])
      ensures rest == old(rest)
    {
      attributes := StripList(attributes);
      events := StripAll(events);
      links := StripAll(links);
    }

    static method StripAll(lists: seq<seq<KeyValue>>) returns (r: seq<seq<KeyValue>>)
      ensures |r| == |lists| && forall i :: 0 <= i < |r| ==> r[i] == StripKvs(lists[i])
    {
      r := [];
      for i := 0 to |lists|
        invariant |r| == i && forall j :: 0 <= j < i ==> r[j] == StripKvs(lists[j])
      {
        var kvs := StripList(lists[i]);
        r := r + [kvs];
      }
    }

    method DropPayloadAttributes() returns (removed: bool)
      modifies this`attributes
      ensures (Value(), removed) == DropPayload(old(Value()))
    {
      hide KeepOthers, Without, Keys, IsPayloadKey;
      var before := attributes;
      var kept := OthersOf(before);
      KeepOthersHolds(before);
      attributes := kept;
      if |kept| == |before| {
        return false;
      }
      MarkTruncated();
      var reason := KeyValue(REASON_KEY, Some(REQUEST_CAP));
      OneKey(reason.key);
      var others := DropStale(attributes, [(reason.key, false)]);
      attributes := others + [reason];
      return true;
    }

    static method OthersOf(kvs: seq<KeyValue>) returns (kept: seq<KeyValue>)
      ensures kept == KeepOthers(kvs)
    {
      kept := [];
      var i := 0;
      assert kvs[0..] == kvs;
      while i < |kvs|
        invariant 0 <= i <= |kvs|
        invariant KeepOthers(kvs) == kept + KeepOthers(kvs[i..])
      {
        assert kvs[i..][1..] == kvs[i + 1..];
        Assoc(kept, if IsPayloadKey(kvs[i].key) then [] else [kvs[i]], KeepOthers(kvs[i + 1..]));
        if Base(kvs[i].key) !in PAYLOAD_KEYS {
          kept := kept + [kvs[i]];
        }
        i := i + 1;
      }
      assert kept + [] == kept;
    }
  }

  lemma OneKey(key: string)
    ensures Keys([(key, false)]) == {key}
  {
    assert (key, false) in [(key, false)];
  }

  // ---- Both passes, with the marker between them ----

  /** The markers an attribute list carries, each the truncation marker itself or within the cap. */
  predicate MarksWithin(kv: KeyValue, cap: nat) {
    && kv.key == LIMITATIONS_KEY && kv.value.Some? && kv.value.value.ArrayValue?
    && forall v :: v in kv.value.value.values ==> v == TRUNCATED || LeavesWithin(v, cap)
  }

  /** Before the rewrite: every entry fits, or is the list of markers. */
  predicate FitsOrMarks(kv: KeyValue, cap: nat) {
    || EntryFits(kv, cap)
    || (kv.key == LIMITATIONS_KEY && kv.value.Some? && kv.value.value.ArrayValue?
        && forall v :: v in kv.value.value.values ==> v == TRUNCATED || Fits(v, cap))
  }

  lemma ItemsFit(v: AnyValue, cap: nat)
    requires v.ArrayValue? && Fits(v, cap)
    ensures forall item :: item in v.values ==> Fits(item, cap)
  {
  }

  lemma MarkedListFits(kvs: seq<KeyValue>, cap: nat)
    requires ListFits(kvs, cap)
    ensures forall i :: 0 <= i < |PushLimitation(kvs, TRUNCATED)| ==>
              FitsOrMarks(PushLimitation(kvs, TRUNCATED)[i], cap)
  {
    var r := PushLimitation(kvs, TRUNCATED);
    forall i | 0 <= i < |r|
      ensures FitsOrMarks(r[i], cap)
    {
      if i < |kvs| {
        assert EntryFits(kvs[i], cap);
        if r[i] != kvs[i] && kvs[i].value.Some? && kvs[i].value.value.ArrayValue? {
          ItemsFit(kvs[i].value.value, cap);
        }
      }
    }
  }

  lemma {:induction false} StripValuesAre(values: seq<AnyValue>)
    ensures forall i :: 0 <= i < |values| ==> StripValues(values)[i] == StripAny(values[i])
  {
    if values != [] {
      StripValuesAre(values[1..]);
    }
  }

  lemma MarkerEntryLeavesWithin(kv: KeyValue, cap: nat)
    requires FitsOrMarks(kv, cap)
    ensures EntryLeavesWithin(StripEntry(kv), cap) || MarksWithin(StripEntry(kv), cap)
  {
    hide TRUNCATED, LIMITATIONS_KEY;
    if EntryFits(kv, cap) {
      if kv.value.Some? {
        FittingValuesLeaveWithin(kv.value.value, cap);
      }
    } else {
      var values := kv.value.value.values;
      StripValuesAre(values);
      TruncatedIsText();
      forall v | v in StripValues(values)
        ensures v == TRUNCATED || LeavesWithin(v, cap)
      {
        var i :| 0 <= i < |values| && StripValues(values)[i] == v;
        if values[i] != TRUNCATED {
          FittingValuesLeaveWithin(values[i], cap);
        }
      }
    }
  }

  lemma TruncatedIsText()
    ensures StripAny(TRUNCATED) == TRUNCATED
  {
  }

  lemma MarkedListLeavesWithin(kvs: seq<KeyValue>, cap: nat)
    requires forall i :: 0 <= i < |kvs| ==> FitsOrMarks(kvs[i], cap)
    ensures forall k :: 0 <= k < |StripKvs(kvs)| ==>
              EntryLeavesWithin(StripKvs(kvs)[k], cap) || MarksWithin(StripKvs(kvs)[k], cap)
  {
    hide StripKvs, StripEntry, FitsOrMarks, MarksWithin;
    var r := StripKvs(kvs);
    forall k | 0 <= k < |r|
      ensures EntryLeavesWithin(r[k], cap) || MarksWithin(r[k], cap)
    {
      var j, marker := StrippedComesFrom(kvs, r[k]);
      if !marker {
        MarkerEntryLeavesWithin(kvs[j], cap);
      }
    }
  }

  /**
   A span after both passes: no bytes value anywhere on it, and nothing over the cap on its events and links.
   Nor on the span itself, but for the truncation marker, which is added after the cap was measured and only
   to a span something was cut from.
   */
  lemma BothPassesHold(sp: SpanData, cap: nat)
    ensures var capped := CapSpan(sp, cap); var out := StripKvs(capped.attributes);
            && ListHasNoBytes(out)
            && (forall k :: 0 <= k < |out| ==> EntryLeavesWithin(out[k], cap) || MarksWithin(out[k], cap))
            && (SpanFits(sp, cap) ==> forall k :: 0 <= k < |out| ==> EntryLeavesWithin(out[k], cap))
            && (forall i :: 0 <= i < |capped.events| ==> LeavesBounded(capped.events[i], cap))
            && (forall i :: 0 <= i < |capped.links| ==> LeavesBounded(capped.links[i], cap))
  {
    hide StripKvs, LeavesBounded, EntryLeavesWithin, MarksWithin, ListHasNoBytes;
    var capped := CapSpan(sp, cap);
    NoEntryIsBytes(capped.attributes);
    SpanAttributesLeaveWithin(sp, cap);
    ListsAreCapped(sp.events, cap);
    ListsAreCapped(sp.links, cap);
    forall i | 0 <= i < |capped.events|
      ensures LeavesBounded(capped.events[i], cap)
    {
      CappedListLeavesBounded(sp.events[i], cap);
    }
    forall i | 0 <= i < |capped.links|
      ensures LeavesBounded(capped.links[i], cap)
    {
      CappedListLeavesBounded(sp.links[i], cap);
    }
  }

  lemma SpanAttributesLeaveWithin(sp: SpanData, cap: nat)
    ensures var out := StripKvs(CapSpan(sp, cap).attributes);
            && (forall k :: 0 <= k < |out| ==> EntryLeavesWithin(out[k], cap) || MarksWithin(out[k], cap))
            && (SpanFits(sp, cap) ==> forall k :: 0 <= k < |out| ==> EntryLeavesWithin(out[k], cap))
  {
    hide StripKvs, EntryLeavesWithin, MarksWithin, CapKvs, PushLimitation, FitsOrMarks;
    ListCutIffOver(sp.attributes, cap);
    SpanCutIffOver(sp, cap);
    if SpanFits(sp, cap) {
      FittingListsLeaveWithin(sp.attributes, cap);
    } else {
      AttributesAreMarked(sp, cap);
      MarkedListFits(CapKvs(sp.attributes, cap).0, cap);
      MarkedListLeavesWithin(CapSpan(sp, cap).attributes, cap);
    }
  }

  lemma AttributesAreMarked(sp: SpanData, cap: nat)
    ensures CapSpan(sp, cap).attributes ==
            if SpanFits(sp, cap) then sp.attributes else PushLimitation(CapKvs(sp.attributes, cap).0, TRUNCATED)
  {
    ListCutIffOver(sp.attributes, cap);
    ListsCutIffOver(sp.events, cap);
    ListsCutIffOver(sp.links, cap);
  }

  /** What an event's or a link's list leaves as. */
  predicate LeavesBounded(kvs: seq<KeyValue>, cap: nat) {
    var out := StripKvs(kvs);
    ListHasNoBytes(out) && forall k :: 0 <= k < |out| ==> EntryLeavesWithin(out[k], cap)
  }

  lemma CappedListLeavesBounded(kvs: seq<KeyValue>, cap: nat)
    ensures LeavesBounded(CapKvs(kvs, cap).0, cap)
  {
    CapThenStripIsBounded(kvs, cap);
  }

  // ---- A span's own payloads ----

  lemma MarkingKeepsKeys(attrs: seq<KeyValue>)
    requires DistinctKeys(attrs)
    ensures var r := PushLimitation(attrs, TRUNCATED);
            && DistinctKeys(r) && |attrs| <= |r|
            && (forall i :: 0 <= i < |attrs| ==>
                  r[i].key == attrs[i].key && (attrs[i].key != LIMITATIONS_KEY ==> r[i] == attrs[i]))
            && (forall i :: 0 <= i < |r| && r[i].key == LIMITATIONS_KEY ==>
                  r[i].value.Some? && r[i].value.value.ArrayValue?)
            && Companions(r) <= Companions(attrs)
  {
    hide TRUNCATED;
    var r := PushLimitation(attrs, TRUNCATED);
    forall kv | kv in r && IsBytes(kv)
      ensures kv in attrs
    {
    }
  }

  /**
   A payload among a span's own attributes, which no other payload shadows, survives both passes as a prefix
   (whole exactly when it leaves within the cap) if and only if it is not in the marker's place on a span that
   something was cut from; there it is lost altogether.
   */
  lemma SpanPayloadsReadBack(sp: SpanData, cap: nat, i: nat)
    requires DistinctKeys(sp.attributes) && i < |sp.attributes| && IsBytes(sp.attributes[i])
    requires sp.attributes[i].key !in Companions(sp.attributes)
    ensures var payload, out := sp.attributes[i], StripKvs(CapSpan(sp, cap).attributes);
            && (ReadsBack(out, payload, cap) <==> payload.key != LIMITATIONS_KEY || SpanFits(sp, cap))
            && (!ReadsBack(out, payload, cap) ==> Read(out, payload.key) == None)
  {
    hide StripKvs, CapSpan, CapKvs, PushLimitation, Companions, Find, TRUNCATED, LIMITATIONS_KEY;
    var payload, capped := sp.attributes[i], CapKvs(sp.attributes, cap).0;
    AttributesAreMarked(sp, cap);
    BytesCut(payload.value.value.raw, cap);
    CapKeepsKinds(sp.attributes, cap);
    ListCutIffOver(sp.attributes, cap);
    if SpanFits(sp, cap) {
      StripRoundTrips(sp.attributes, i);
    } else {
      MarkingKeepsKeys(capped);
      var marked := PushLimitation(capped, TRUNCATED);
      if payload.key != LIMITATIONS_KEY {
        StripRoundTrips(marked, i);
      } else {
        AttributeIsUnique(marked, i);
      }
    }
  }

  /** Five bytes of output over a cap of four cost the one-byte payload that sits in the marker's place. */
  lemma SquattedPayloadIsLost()
    ensures var kvs := [KeyValue(LIMITATIONS_KEY, Some(BytesValue([65]))),
                        KeyValue("wardex.output_data", Some(StringValue([1, 2, 3, 4, 5])))];
            && DistinctKeys(kvs) && Companions(kvs) == {Companion(LIMITATIONS_KEY)}
            && Read(StripKvs(CapKvs(kvs, 4).0), LIMITATIONS_KEY) == Some([65])
            && Read(StripKvs(CapSpan(SpanData(kvs, [], [], []), 4).attributes), LIMITATIONS_KEY) == None
  {
    hide StripKvs, CapSpan, CapKvs, PushLimitation, Find, TRUNCATED;
    var kvs := [KeyValue(LIMITATIONS_KEY, Some(BytesValue([65]))),
                KeyValue("wardex.output_data", Some(StringValue([1, 2, 3, 4, 5])))];
    var sp := SpanData(kvs, [], [], []);
    assert LIMITATIONS_KEY[7] == 'l' && "wardex.output_data"[7] == 'o';
    assert kvs[0] in kvs;
    CompanionInjective(LIMITATIONS_KEY, LIMITATIONS_KEY);
    assert !EntryFits(kvs[1], 4) && !SpanFits(sp, 4);
    SpanPayloadsReadBack(sp, 4, 0);
    PayloadsReadBack(kvs, 4, 0);
    assert AsText([65]);
  }

  lemma {:induction false} ListsAreCapped(lists: seq<seq<KeyValue>>, cap: nat)
    ensures |CapLists(lists, cap).0| == |lists|
    ensures forall i :: 0 <= i < |lists| ==> CapLists(lists, cap).0[i] == CapKvs(lists[i], cap).0
  {
    if lists != [] {
      ListsAreCapped(lists[1..], cap);
    }
  }
}
