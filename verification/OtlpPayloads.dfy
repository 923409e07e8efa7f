/** What the cap and the rewrite guarantee together: bounded strings that decode back to what was captured. */
module OtlpPayloads {
  import opened Bytes
  import opened Options
  import opened Utf8
  import opened Base64
  import opened OtlpAttributes

  // ---- No bytes value leaves ----

  predicate NoBytes(v: AnyValue)
    decreases v
  {
    match v
    case BytesValue(_) => false
    case ArrayValue(values) => forall i :: 0 <= i < |values| ==> NoBytes(values[i])
    case KvlistValue(entries) => forall i :: 0 <= i < |entries| ==> EntryHasNoBytes(entries[i])
    case _ => true
  }

  predicate EntryHasNoBytes(kv: KeyValue)
    decreases kv
  {
    kv.value.Some? ==> NoBytes(kv.value.value)
  }

  predicate ListHasNoBytes(kvs: seq<KeyValue>) {
    forall i :: 0 <= i < |kvs| ==> EntryHasNoBytes(kvs[i])
  }

  lemma {:induction false} WithoutKeeps(kvs: seq<KeyValue>, keys: set<string>)
    ensures forall kv :: kv in Without(kvs, keys) <==> kv in kvs && kv.key !in keys
  {
    if kvs != [] {
      WithoutKeeps(kvs[1..], keys);
    }
  }

  predicate GoesBase64(kv: KeyValue) {
    IsBytes(kv) && !AsText(kv.value.value.raw)
  }

  lemma {:induction false} MarkersAre(kvs: seq<KeyValue>)
    ensures forall m :: m in Markers(kvs) <==>
              exists i :: 0 <= i < |kvs| && GoesBase64(kvs[i]) && m == Marker(kvs[i].key)
  {
    if kvs != [] {
      MarkersAre(kvs[1..]);
      assert forall i :: 0 <= i < |kvs[1..]| ==> kvs[1..][i] == kvs[i + 1];
      forall m | m in Markers(kvs)
        ensures exists i :: 0 <= i < |kvs| && GoesBase64(kvs[i]) && m == Marker(kvs[i].key)
      {
        if m in Markers(kvs[1..]) {
          var i :| 0 <= i < |kvs[1..]| && GoesBase64(kvs[1..][i]) && m == Marker(kvs[1..][i].key);
          assert kvs[1..][i] == kvs[i + 1];
        }
      }
      forall i | 0 <= i < |kvs| && GoesBase64(kvs[i])
        ensures Marker(kvs[i].key) in Markers(kvs)
      {
        if i > 0 {
          assert kvs[1..][i - 1] == kvs[i];
          assert Marker(kvs[1..][i - 1].key) in Markers(kvs[1..]);
        }
      }
    }
  }

  lemma {:induction false} StripEachIs(kvs: seq<KeyValue>)
    ensures forall i :: 0 <= i < |kvs| ==> StripEach(kvs)[i] == StripEntry(kvs[i])
  {
    if kvs != [] {
      StripEachIs(kvs[1..]);
    }
  }

  /** Everything in a rewritten list is a rewritten attribute that no companion claimed, or a marker. */
  lemma StripKvsHolds(kvs: seq<KeyValue>)
    ensures forall kv :: kv in StripKvs(kvs) <==>
              || (exists i :: 0 <= i < |kvs| && kv == StripEntry(kvs[i]) && kvs[i].key !in Companions(kvs))
              || kv in Markers(kvs)
  {
    StripEachIs(kvs);
    WithoutKeeps(StripEach(kvs), Companions(kvs));
  }

  /** After the rewrite no bytes value is left, however deep it was. */
  lemma {:induction false} NothingIsBytes(v: AnyValue)
    ensures NoBytes(StripAny(v))
    decreases v, 0
  {
    match v
    case ArrayValue(values) => NoItemIsBytes(values);
    case KvlistValue(entries) => NoEntryIsBytes(entries);
    case _ =>
  }

  lemma {:induction false} NoItemIsBytes(values: seq<AnyValue>)
    ensures forall i :: 0 <= i < |values| ==> NoBytes(StripValues(values)[i])
    decreases values, 0
  {
    if values != [] {
      NothingIsBytes(values[0]);
      NoItemIsBytes(values[1..]);
    }
  }

  lemma NoEntryIsBytes(kvs: seq<KeyValue>)
    ensures ListHasNoBytes(StripKvs(kvs))
    decreases kvs, 1
  {
    StripKvsHolds(kvs);
    MarkersAre(kvs);
    var r := StripKvs(kvs);
    forall k | 0 <= k < |r|
      ensures EntryHasNoBytes(r[k])
    {
      assert r[k] in r;
      if r[k] !in Markers(kvs) {
        var i :| 0 <= i < |kvs| && r[k] == StripEntry(kvs[i]) && kvs[i].key !in Companions(kvs);
        if kvs[i].value.Some? {
          assert kvs[i] in kvs;
          NothingIsBytes(kvs[i].value.value);
        }
      }
    }
  }

  // ---- The cap is measured as values leave ----

  /** Whether every string a value will leave as, at any depth, is within the cap. */
  predicate Fits(v: AnyValue, cap: nat)
    decreases v
  {
    match v
    case StringValue(s) => |s| <= cap
    case BytesValue(b) => |Leaving(b)| <= cap
    case ArrayValue(values) => forall i :: 0 <= i < |values| ==> Fits(values[i], cap)
    case KvlistValue(entries) => forall i :: 0 <= i < |entries| ==> EntryFits(entries[i], cap)
    case OtherValue(_) => true
  }

  predicate EntryFits(kv: KeyValue, cap: nat)
    decreases kv
  {
    kv.value.Some? ==> Fits(kv.value.value, cap)
  }

  predicate ListFits(kvs: seq<KeyValue>, cap: nat) {
    forall i :: 0 <= i < |kvs| ==> EntryFits(kvs[i], cap)
  }

  /** The early return at three quarters of the cap never skips a cut that was needed. */
  lemma SmallPayloadsFit(b: seq<byte>, cap: nat)
    requires |b| <= cap / 4 * 3
    ensures |Leaving(b)| <= cap
  {
    EncodedLength(b);
  }

  lemma TextPrefix(b: seq<byte>, n: nat)
    requires AsText(b) && n <= |b| && Valid(b[..n])
    ensures AsText(b[..n])
  {
    assert forall c :: c in b[..n] ==> c in b;
  }

  /** A bytes value is cut exactly when what it would leave as is over the cap, and then leaves within it. */
  lemma BytesCut(b: seq<byte>, cap: nat)
    ensures var (v, cut) := CapAny(BytesValue(b), cap);
            && (cut <==> |Leaving(b)| > cap)
            && v.BytesValue? && v.raw <= b && |Leaving(v.raw)| <= cap
            && (cut <==> v.raw != b)
  {
    EncodedLength(b);
    if |b| <= cap / 4 * 3 {
      SmallPayloadsFit(b, cap);
    } else if AsText(b) {
      FloorBoundaryIsHighest(b, cap);
      TextPrefix(b, FloorBoundary(b, cap));
    } else {
      SmallPayloadsFit(b[..Keep(b, cap)], cap);
    }
  }

  /** A string is cut exactly when it is over the cap, to its longest well-formed start within it. */
  lemma StringCut(s: seq<byte>, cap: nat)
    requires Valid(s)
    ensures var (v, cut) := CapAny(StringValue(s), cap);
            && (cut <==> |s| > cap)
            && v.StringValue? && v.text <= s && Valid(v.text) && |v.text| <= cap
            && forall k: nat :: k <= cap && k <= |s| && Valid(s[..k]) ==> k <= |v.text|
  {
    FloorBoundaryIsHighest(s, cap);
    forall k: nat | k <= cap && k < |s| && Valid(s[..k])
      ensures !IsContinuation(s[k])
    {
      CutsAreBetween(s, k);
    }
  }

  /** A value is cut exactly when something in it was over the cap; an uncut value is unchanged, a cut one fits. */
  lemma {:induction false} CutIffOver(v: AnyValue, cap: nat)
    ensures var (r, cut) := CapAny(v, cap);
            && (cut <==> !Fits(v, cap)) && (cut <==> r != v) && Fits(r, cap)
    decreases v, 0
  {
    match v
    case BytesValue(b) => BytesCut(b, cap);
    case ArrayValue(values) => ItemsCutIffOver(values, cap);
    case KvlistValue(entries) => ListCutIffOver(entries, cap);
    case _ =>
  }

  lemma {:induction false} ItemsCutIffOver(values: seq<AnyValue>, cap: nat)
    ensures var (r, cut) := CapValues(values, cap);
            && |r| == |values|
            && (cut <==> exists i :: 0 <= i < |values| && !Fits(values[i], cap))
            && (cut <==> r != values)
            && (forall i :: 0 <= i < |r| ==> Fits(r[i], cap))
    decreases values, 0
  {
    if values != [] {
      CutIffOver(values[0], cap);
      ItemsCutIffOver(values[1..], cap);
      var (r, cut) := CapValues(values, cap);
      var tail := CapValues(values[1..], cap).0;
      assert values == [values[0]] + values[1..] && r[1..] == tail && r[0] == CapAny(values[0], cap).0;
      assert forall i :: 1 <= i < |values| ==> values[i] == values[1..][i - 1] && r[i] == tail[i - 1];
      assert forall i :: 0 <= i < |values[1..]| ==> values[1..][i] == values[i + 1];
    }
  }

  lemma {:induction false} ListCutIffOver(kvs: seq<KeyValue>, cap: nat)
    ensures var (r, cut) := CapKvs(kvs, cap);
            && |r| == |kvs|
            && (cut <==> !ListFits(kvs, cap)) && (cut <==> r != kvs) && ListFits(r, cap)
            && (forall i :: 0 <= i < |kvs| ==> r[i] == CapEntry(kvs[i], cap).0 && r[i].key == kvs[i].key)
    decreases kvs, 0
  {
    hide CapEntry, EntryFits;
    if kvs != [] {
      EntryCutIffOver(kvs[0], cap);
      ListCutIffOver(kvs[1..], cap);
      var (r, cut) := CapKvs(kvs, cap);
      var tail := CapKvs(kvs[1..], cap).0;
      assert kvs == [kvs[0]] + kvs[1..] && r[1..] == tail && r[0] == CapEntry(kvs[0], cap).0;
      assert forall i :: 1 <= i < |kvs| ==> kvs[i] == kvs[1..][i - 1] && r[i] == tail[i - 1];
      assert forall i :: 0 <= i < |kvs[1..]| ==> kvs[1..][i] == kvs[i + 1];
    }
  }

  lemma {:induction false} EntryCutIffOver(kv: KeyValue, cap: nat)
    ensures var (r, cut) := CapEntry(kv, cap);
            && (cut <==> !EntryFits(kv, cap)) && (cut <==> r != kv) && EntryFits(r, cap) && r.key == kv.key
    decreases kv, 1
  {
    if kv.value.Some? {
      CutIffOver(kv.value.value, cap);
    }
  }

  /** Whether every string of a rewritten value is within the cap, the rewrite's own markers aside. */
  predicate LeavesWithin(v: AnyValue, cap: nat)
    decreases v
  {
    match v
    case StringValue(s) => |s| <= cap
    case BytesValue(_) => false
    case ArrayValue(values) => forall i :: 0 <= i < |values| ==> LeavesWithin(values[i], cap)
    case KvlistValue(entries) => forall i :: 0 <= i < |entries| ==> EntryLeavesWithin(entries[i], cap)
    case OtherValue(_) => true
  }

  predicate EntryLeavesWithin(kv: KeyValue, cap: nat)
    decreases kv
  {
    kv.value.Some? ==> kv.value.value == StringValue(BASE64_NAME) || LeavesWithin(kv.value.value, cap)
  }

  lemma {:induction false} FittingValuesLeaveWithin(v: AnyValue, cap: nat)
    requires Fits(v, cap)
    ensures LeavesWithin(StripAny(v), cap)
    decreases v, 0
  {
    match v
    case ArrayValue(values) => FittingItemsLeaveWithin(values, cap);
    case KvlistValue(entries) => FittingListsLeaveWithin(entries, cap);
    case _ =>
  }

  lemma {:induction false} FittingItemsLeaveWithin(values: seq<AnyValue>, cap: nat)
    requires forall i :: 0 <= i < |values| ==> Fits(values[i], cap)
    ensures forall i :: 0 <= i < |values| ==> LeavesWithin(StripValues(values)[i], cap)
    decreases values, 0
  {
    if values != [] {
      FittingValuesLeaveWithin(values[0], cap);
      FittingItemsLeaveWithin(values[1..], cap);
    }
  }

  lemma FittingListsLeaveWithin(kvs: seq<KeyValue>, cap: nat)
    requires ListFits(kvs, cap)
    ensures forall k :: 0 <= k < |StripKvs(kvs)| ==> EntryLeavesWithin(StripKvs(kvs)[k], cap)
    decreases kvs, 1
  {
    StripKvsHolds(kvs);
    MarkersAre(kvs);
    var r := StripKvs(kvs);
    forall k | 0 <= k < |r|
      ensures EntryLeavesWithin(r[k], cap)
    {
      assert r[k] in r;
      if r[k] !in Markers(kvs) {
        var i :| 0 <= i < |kvs| && r[k] == StripEntry(kvs[i]) && kvs[i].key !in Companions(kvs);
        if kvs[i].value.Some? {
          assert kvs[i] in kvs && EntryFits(kvs[i], cap);
          FittingValuesLeaveWithin(kvs[i].value.value, cap);
        }
      }
    }
  }

  /** Both passes over any attribute list: nothing leaves as bytes, and nothing the cap saw leaves over it. */
  lemma CapThenStripIsBounded(kvs: seq<KeyValue>, cap: nat)
    ensures var out := StripKvs(CapKvs(kvs, cap).0);
            ListHasNoBytes(out) && forall k :: 0 <= k < |out| ==> EntryLeavesWithin(out[k], cap)
  {
    ListCutIffOver(kvs, cap);
    NoEntryIsBytes(CapKvs(kvs, cap).0);
    FittingListsLeaveWithin(CapKvs(kvs, cap).0, cap);
  }

  // ---- What leaves is text ----

  /** Whether every string in a value, at any depth, is well-formed text. Bytes values may hold anything. */
  predicate IsText(v: AnyValue)
    decreases v
  {
    match v
    case StringValue(s) => Valid(s)
    case ArrayValue(values) => forall i :: 0 <= i < |values| ==> IsText(values[i])
    case KvlistValue(entries) => forall i :: 0 <= i < |entries| ==> EntryIsText(entries[i])
    case _ => true
  }

  predicate EntryIsText(kv: KeyValue)
    decreases kv
  {
    kv.value.Some? ==> IsText(kv.value.value)
  }

  predicate ListIsText(kvs: seq<KeyValue>) {
    forall i :: 0 <= i < |kvs| ==> EntryIsText(kvs[i])
  }

  lemma LeavingIsText(b: seq<byte>)
    ensures Valid(Leaving(b))
  {
    EncodedIsText(b);
    if !AsText(b) {
      AsciiIsValid(Encode(b));
    }
  }

  lemma ArrayConsIsText(v: AnyValue, values: seq<AnyValue>)
    requires IsText(v) && IsText(ArrayValue(values))
    ensures IsText(ArrayValue([v] + values))
  {
  }

  /** No cut falls inside a character. */
  lemma {:induction false} CutsAreText(v: AnyValue, cap: nat)
    requires IsText(v)
    ensures IsText(CapAny(v, cap).0)
    decreases v, 0
  {
    match v
    case StringValue(s) => FloorBoundaryIsHighest(s, cap);
    case ArrayValue(values) => ItemCutsAreText(values, cap);
    case KvlistValue(entries) => ListCutsAreText(entries, cap);
    case _ =>
  }

  lemma {:induction false} ItemCutsAreText(values: seq<AnyValue>, cap: nat)
    requires forall i :: 0 <= i < |values| ==> IsText(values[i])
    ensures IsText(ArrayValue(CapValues(values, cap).0))
    decreases values, 0
  {
    if values != [] {
      CutsAreText(values[0], cap);
      ItemCutsAreText(values[1..], cap);
      ArrayConsIsText(CapAny(values[0], cap).0, CapValues(values[1..], cap).0);
    }
  }

  lemma {:induction false} ListCutsAreText(kvs: seq<KeyValue>, cap: nat)
    requires ListIsText(kvs)
    ensures ListIsText(CapKvs(kvs, cap).0)
    decreases kvs, 0
  {
    if kvs != [] {
      assert EntryIsText(kvs[0]);
      if kvs[0].value.Some? {
        CutsAreText(kvs[0].value.value, cap);
      }
      ListCutsAreText(kvs[1..], cap);
      var r := CapKvs(kvs, cap).0;
      assert r == [CapEntry(kvs[0], cap).0] + CapKvs(kvs[1..], cap).0;
    }
  }

  lemma {:induction false} StrippedIsText(v: AnyValue)
    requires IsText(v)
    ensures IsText(StripAny(v))
    decreases v, 0
  {
    match v
    case BytesValue(b) => LeavingIsText(b);
    case ArrayValue(values) => StrippedItemsAreText(values);
    case KvlistValue(entries) => StrippedListIsText(entries);
    case _ =>
  }

  lemma {:induction false} StrippedItemsAreText(values: seq<AnyValue>)
    requires forall i :: 0 <= i < |values| ==> IsText(values[i])
    ensures forall i :: 0 <= i < |values| ==> IsText(StripValues(values)[i])
    decreases values, 0
  {
    if values != [] {
      StrippedIsText(values[0]);
      StrippedItemsAreText(values[1..]);
    }
  }

  lemma StrippedListIsText(kvs: seq<KeyValue>)
    requires ListIsText(kvs)
    ensures ListIsText(StripKvs(kvs))
    decreases kvs, 1
  {
    hide StripKvs, Markers, Companions, ListIsText;
    StripKvsHolds(kvs);
    MarkersAre(kvs);
    AsciiIsValid(BASE64_NAME);
    forall kv | kv in StripKvs(kvs)
      ensures EntryIsText(kv)
    {
      if kv !in Markers(kvs) {
        var j :| 0 <= j < |kvs| && kv == StripEntry(kvs[j]) && kvs[j].key !in Companions(kvs);
        EntryOfTextList(kvs, j);
        if kvs[j].value.Some? {
          StrippedIsText(kvs[j].value.value);
        }
      }
    }
    AllEntriesAreText(StripKvs(kvs));
  }

  lemma EntryOfTextList(kvs: seq<KeyValue>, j: nat)
    requires ListIsText(kvs) && j < |kvs|
    ensures EntryIsText(kvs[j]) && kvs[j] in kvs
  {
  }

  lemma AllEntriesAreText(kvs: seq<KeyValue>)
    requires forall kv :: kv in kvs ==> EntryIsText(kv)
    ensures ListIsText(kvs)
  {
  }

  /**
   Both passes take text to text: no string is cut inside a character, which the truncation would abort on,
   and whatever bytes a payload held, what it leaves as is well-formed.
   */
  lemma CapThenStripIsText(kvs: seq<KeyValue>, cap: nat)
    requires ListIsText(kvs)
    ensures ListIsText(CapKvs(kvs, cap).0) && ListIsText(StripKvs(CapKvs(kvs, cap).0))
  {
    ListCutsAreText(kvs, cap);
    StrippedListIsText(CapKvs(kvs, cap).0);
  }

  // ---- A consumer gets the payload back ----

  predicate DistinctKeys(kvs: seq<KeyValue>) {
    forall i, j :: 0 <= i < j < |kvs| ==> kvs[i].key != kvs[j].key
  }

  /** The first value under a key, which is the only one when keys are distinct. */
  function Find(kvs: seq<KeyValue>, key: string): Option<AnyValue> {
    if kvs == [] then None
    else if kvs[0].key == key then kvs[0].value
    else Find(kvs[1..], key)
  }

  /** What a consumer reads under a key, undoing the encoding the companion names. */
  function Read(kvs: seq<KeyValue>, key: string): Option<seq<byte>> {
    match Find(kvs, key)
    case Some(StringValue(s)) =>
      if Find(kvs, Companion(key)) == Some(StringValue(BASE64_NAME)) then Decode(s) else Some(s)
    case _ => None
  }

  lemma {:induction false} FindIn(kvs: seq<KeyValue>, kv: KeyValue)
    requires kv in kvs && forall other :: other in kvs && other.key == kv.key ==> other == kv
    ensures Find(kvs, kv.key) == kv.value
  {
    if kvs[0].key != kv.key {
      FindIn(kvs[1..], kv);
    } else {
      assert kvs[0] in kvs;
    }
  }

  lemma {:induction false} FindNone(kvs: seq<KeyValue>, key: string)
    requires forall kv :: kv in kvs ==> kv.key != key
    ensures Find(kvs, key) == None
  {
    if kvs != [] {
      assert kvs[0] in kvs;
      FindNone(kvs[1..], key);
    }
  }

  lemma CompanionInjective(a: string, b: string)
    ensures Companion(a) == Companion(b) ==> a == b
    ensures Companion(a) != a
  {
    if Companion(a) == Companion(b) {
      assert |a| == |b|;
      assert Companion(a)[..|a|] == a && Companion(b)[..|b|] == b;
    }
  }

  /** Where an attribute of a rewritten list came from: a payload's marker, or an attribute rewritten. */
  lemma StrippedComesFrom(kvs: seq<KeyValue>, kv: KeyValue) returns (j: nat, marker: bool)
    requires kv in StripKvs(kvs)
    ensures j < |kvs|
    ensures if marker then GoesBase64(kvs[j]) && kv == Marker(kvs[j].key)
            else kv == StripEntry(kvs[j]) && kvs[j].key !in Companions(kvs)
  {
    hide StripKvs, StripEntry, Companions, Markers;
    StripKvsHolds(kvs);
    MarkersAre(kvs);
    marker := kv in Markers(kvs);
    if marker {
      j :| 0 <= j < |kvs| && GoesBase64(kvs[j]) && kv == Marker(kvs[j].key);
    } else {
      j :| 0 <= j < |kvs| && kv == StripEntry(kvs[j]) && kvs[j].key !in Companions(kvs);
    }
  }

  lemma StrippedHolds(kvs: seq<KeyValue>, i: nat)
    requires i < |kvs|
    ensures kvs[i].key !in Companions(kvs) ==> StripEntry(kvs[i]) in StripKvs(kvs)
    ensures GoesBase64(kvs[i]) ==> Marker(kvs[i].key) in StripKvs(kvs)
  {
    hide StripKvs, StripEntry, Companions, Markers;
    StripKvsHolds(kvs);
    MarkersAre(kvs);
  }

  lemma KeysTellApart(kvs: seq<KeyValue>, i: nat, j: nat)
    requires i < |kvs| && j < |kvs|
    ensures DistinctKeys(kvs) && kvs[i].key == kvs[j].key ==> i == j
    ensures IsBytes(kvs[j]) && kvs[i].key == Companion(kvs[j].key) ==> kvs[i].key in Companions(kvs)
  {
    assert kvs[j] in kvs;
  }

  lemma StripKeepsKey(kv: KeyValue)
    ensures StripEntry(kv).key == kv.key
  {
  }

  /** An attribute under no payload's companion key is rewritten, and is the one thing under its key. */
  lemma AttributeIsUnique(kvs: seq<KeyValue>, i: nat)
    requires DistinctKeys(kvs) && i < |kvs| && kvs[i].key !in Companions(kvs)
    ensures StripEntry(kvs[i]) in StripKvs(kvs)
    ensures forall kv :: kv in StripKvs(kvs) && kv.key == kvs[i].key ==> kv == StripEntry(kvs[i])
    ensures Find(StripKvs(kvs), kvs[i].key) == StripEntry(kvs[i]).value
  {
    hide StripKvs, StripEntry, Companions, Companion, AsText, DistinctKeys, Find;
    StrippedHolds(kvs, i);
    StripKeepsKey(kvs[i]);
    forall kv | kv in StripKvs(kvs) && kv.key == kvs[i].key
      ensures kv == StripEntry(kvs[i])
    {
      var j, marker := StrippedComesFrom(kvs, kv);
      StripKeepsKey(kvs[j]);
      KeysTellApart(kvs, i, j);
    }
    FindIn(StripKvs(kvs), StripEntry(kvs[i]));
  }

  /** Its companion says base64 exactly when it went base64; whatever sat there before is gone. */
  lemma CompanionIsHonest(kvs: seq<KeyValue>, i: nat)
    requires DistinctKeys(kvs) && i < |kvs| && IsBytes(kvs[i])
    ensures Find(StripKvs(kvs), Companion(kvs[i].key)) ==
            if AsText(kvs[i].value.value.raw) then None else Some(StringValue(BASE64_NAME))
  {
    hide StripKvs, StripEntry, Companions, Companion, AsText, Find, DistinctKeys;
    var key, m := Companion(kvs[i].key), Marker(kvs[i].key);
    IsACompanion(kvs, i);
    StrippedHolds(kvs, i);
    forall kv | kv in StripKvs(kvs) && kv.key == key
      ensures kv == m && !AsText(kvs[i].value.value.raw)
    {
      var j, marker := StrippedComesFrom(kvs, kv);
      StripKeepsKey(kvs[j]);
      CompanionInjective(kvs[i].key, kvs[j].key);
      KeysTellApart(kvs, i, j);
    }
    if AsText(kvs[i].value.value.raw) {
      FindNone(StripKvs(kvs), key);
    } else {
      FindIn(StripKvs(kvs), m);
    }
  }

  lemma IsACompanion(kvs: seq<KeyValue>, i: nat)
    requires i < |kvs| && IsBytes(kvs[i])
    ensures Companion(kvs[i].key) in Companions(kvs)
  {
    assert kvs[i] in kvs;
  }

  /** Whether some other payload claims `key` for its marker, because it goes base64. */
  predicate MarkerStandsAt(kvs: seq<KeyValue>, key: string) {
    exists j :: 0 <= j < |kvs| && GoesBase64(kvs[j]) && Companion(kvs[j].key) == key
  }

  /** A payload filed under another's companion key is dropped; all that can stand there is the other's marker. */
  lemma ShadowedPayloadIsDropped(kvs: seq<KeyValue>, i: nat)
    requires DistinctKeys(kvs) && i < |kvs| && IsBytes(kvs[i]) && kvs[i].key in Companions(kvs)
    ensures Find(StripKvs(kvs), kvs[i].key) ==
            if MarkerStandsAt(kvs, kvs[i].key) then Some(StringValue(BASE64_NAME)) else None
  {
    hide StripKvs, StripEntry, Companions, Companion, AsText, Find, DistinctKeys;
    var key := kvs[i].key;
    forall kv | kv in StripKvs(kvs) && kv.key == key
      ensures MarkerStandsAt(kvs, key) && kv == KeyValue(key, Some(StringValue(BASE64_NAME)))
    {
      var j, marker := StrippedComesFrom(kvs, kv);
      StripKeepsKey(kvs[j]);
    }
    if MarkerStandsAt(kvs, key) {
      var j :| 0 <= j < |kvs| && GoesBase64(kvs[j]) && Companion(kvs[j].key) == key;
      StrippedHolds(kvs, j);
      FindIn(StripKvs(kvs), Marker(kvs[j].key));
    } else {
      FindNone(StripKvs(kvs), key);
    }
  }

  lemma MarkerNameIsNoBase64()
    ensures AsText(BASE64_NAME) && Decode(BASE64_NAME) == None
  {
  }

  /**
   Reading a rewritten list gives a payload back byte for byte exactly when no other payload's companion key
   is its own, the one coincidence aside: a payload that spells the very marker put in its place.
   */
  lemma StripRoundTrips(kvs: seq<KeyValue>, i: nat)
    requires DistinctKeys(kvs) && i < |kvs| && IsBytes(kvs[i])
    ensures Read(StripKvs(kvs), kvs[i].key) == Some(kvs[i].value.value.raw) <==>
            || kvs[i].key !in Companions(kvs)
            || (kvs[i].value.value.raw == BASE64_NAME && MarkerStandsAt(kvs, kvs[i].key))
  {
    hide StripKvs, Companions, Companion, AsText, Find, DistinctKeys, Decode, MarkerStandsAt;
    var b := kvs[i].value.value.raw;
    CompanionIsHonest(kvs, i);
    DecodeInvertsEncode(b);
    MarkerNameIsNoBase64();
    if kvs[i].key in Companions(kvs) {
      ShadowedPayloadIsDropped(kvs, i);
    } else {
      AttributeIsUnique(kvs, i);
    }
  }

  /**
   Through both passes, a payload of a list that nothing is added to in between (an event's, a link's or a
   nested one) reads back as a prefix of what was captured, and as the whole of it unless it would have left
   over the cap.
   */
  lemma PayloadsReadBack(kvs: seq<KeyValue>, cap: nat, i: nat)
    requires DistinctKeys(kvs) && i < |kvs| && IsBytes(kvs[i]) && kvs[i].key !in Companions(kvs)
    ensures ReadsBack(StripKvs(CapKvs(kvs, cap).0), kvs[i], cap)
  {
    ListCutIffOver(kvs, cap);
    BytesCut(kvs[i].value.value.raw, cap);
    CapKeepsKinds(kvs, cap);
    StripRoundTrips(CapKvs(kvs, cap).0, i);
  }

  /** A prefix of the payload is read under its key, and the whole of it exactly when it leaves within the cap. */
  predicate ReadsBack(out: seq<KeyValue>, payload: KeyValue, cap: nat)
    requires IsBytes(payload)
  {
    var b, got := payload.value.value.raw, Read(out, payload.key);
    got.Some? && got.value <= b && (got.value == b <==> |Leaving(b)| <= cap)
  }

  lemma EntryKeepsKind(kv: KeyValue, cap: nat)
    ensures CapEntry(kv, cap).0.key == kv.key && IsBytes(CapEntry(kv, cap).0) == IsBytes(kv)
  {
  }

  lemma CapKeepsKinds(kvs: seq<KeyValue>, cap: nat)
    ensures var r := CapKvs(kvs, cap).0;
            && |r| == |kvs|
            && (forall i :: 0 <= i < |kvs| ==> IsBytes(r[i]) == IsBytes(kvs[i]) && r[i].key == kvs[i].key)
            && (DistinctKeys(kvs) ==> DistinctKeys(r))
            && Companions(r) == Companions(kvs)
  {
    ListCutIffOver(kvs, cap);
    var r := CapKvs(kvs, cap).0;
    forall i | 0 <= i < |kvs|
      ensures IsBytes(r[i]) == IsBytes(kvs[i]) && r[i].key == kvs[i].key
    {
      EntryKeepsKind(kvs[i], cap);
    }
    SameCompanions(r, kvs);
    SameCompanions(kvs, r);
  }

  lemma SameCompanions(a: seq<KeyValue>, b: seq<KeyValue>)
    requires |a| <= |b| && forall i :: 0 <= i < |a| ==> IsBytes(a[i]) ==> IsBytes(b[i]) && a[i].key == b[i].key
    ensures Companions(a) <= Companions(b)
  {
    forall kv | kv in a && IsBytes(kv)
      ensures Companion(kv.key) in Companions(b)
    {
      var i :| 0 <= i < |a| && a[i] == kv;
      assert b[i] in b;
    }
  }
}
