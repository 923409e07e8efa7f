/**
 The last two passes over a span's attributes before they are serialised: the size cap, and the rewrite of
 every bytes value into a string that all backends accept.
 */
module OtlpAttributes {
  import opened Bytes
  import opened Options
  import opened Utf8
  import opened Base64

  datatype AnyValue =
    | StringValue(text: seq<byte>)
    | BytesValue(raw: seq<byte>)
    | ArrayValue(values: seq<AnyValue>)
    | KvlistValue(entries: seq<KeyValue>)
    // A boolean, an integer, a double, or nothing: no pass touches these.
    | OtherValue(code: int)

  datatype KeyValue = KeyValue(key: string, value: Option<AnyValue>)

  const ENCODING_SUFFIX := ".encoding"
  const BASE64_NAME: seq<byte> := [98, 97, 115, 101, 54, 52]

  function Companion(key: string): string {
    key + ENCODING_SUFFIX
  }

  function Marker(key: string): KeyValue {
    KeyValue(Companion(key), Some(StringValue(BASE64_NAME)))
  }

  // ---- The rewrite ----

  predicate IsControl(c: byte) {
    c < 32 && c != 9 && c != 10 && c != 13
  }

  /** Whether bytes may leave verbatim: well-formed UTF-8 with no control byte but tab, LF and CR. */
  predicate AsText(b: seq<byte>) {
    Valid(b) && forall c :: c in b ==> !IsControl(c)
  }

  /** What a bytes value leaves as. */
  function Leaving(b: seq<byte>): seq<byte> {
    if AsText(b) then b else Encode(b)
  }

  predicate IsBytes(kv: KeyValue) {
    kv.value.Some? && kv.value.value.BytesValue?
  }

  function StripAny(v: AnyValue): AnyValue
    decreases v
  {
    match v
    case BytesValue(b) => StringValue(Leaving(b))
    case ArrayValue(values) => ArrayValue(StripValues(values))
    case KvlistValue(entries) => KvlistValue(StripKvs(entries))
    case _ => v
  }

  function StripValues(values: seq<AnyValue>): (r: seq<AnyValue>)
    ensures |r| == |values|
    decreases values
  {
    if values == [] then [] else [StripAny(values[0])] + StripValues(values[1..])
  }

  function StripEntry(kv: KeyValue): KeyValue
    decreases kv
  {
    match kv.value
    case None => kv
    case Some(v) => KeyValue(kv.key, Some(StripAny(v)))
  }

  function StripEach(kvs: seq<KeyValue>): (r: seq<KeyValue>)
    ensures |r| == |kvs|
    decreases kvs, 0
  {
    if kvs == [] then [] else [StripEntry(kvs[0])] + StripEach(kvs[1..])
  }

  /** The companion keys a list's bytes values claim, whether or not each goes base64. */
  function Companions(kvs: seq<KeyValue>): set<string> {
    set kv | kv in kvs && IsBytes(kv) :: Companion(kv.key)
  }

  function Without(kvs: seq<KeyValue>, keys: set<string>): seq<KeyValue> {
    if kvs == [] then []
    else (if kvs[0].key in keys then [] else [kvs[0]]) + Without(kvs[1..], keys)
  }

  function Markers(kvs: seq<KeyValue>): seq<KeyValue> {
    if kvs == [] then []
    else
      (if IsBytes(kvs[0]) && !AsText(kvs[0].value.value.raw) then [Marker(kvs[0].key)] else [])
      + Markers(kvs[1..])
  }

  /** Every bytes value rewritten; stale companions dropped; one marker for each value that went base64. */
  function StripKvs(kvs: seq<KeyValue>): seq<KeyValue>
    decreases kvs, 1
  {
    Without(StripEach(kvs), Companions(kvs)) + Markers(kvs)
  }

  method StripList(kvs: seq<KeyValue>) returns (r: seq<KeyValue>)
    ensures r == StripKvs(kvs)
    decreases kvs, 1
  {
    var rewritten;
    r, rewritten := RewriteEach(kvs);
    if rewritten == [] {
      assert Keys(rewritten) == {};
      WithoutNothing(r);
      assert r + [] == r;
      return;
    }
    r := DropStale(r, rewritten);
    var m := 0;
    ghost var kept := r;
    assert kept + [] == kept;
    while m < |rewritten|
      invariant 0 <= m <= |rewritten|
      invariant r == kept + MarkersOf(rewritten[..m])
    {
      var (companion, wentBase64) := rewritten[m];
      MarkersOfSnoc(rewritten[..m], rewritten[m]);
      assert rewritten[..m + 1] == rewritten[..m] + [rewritten[m]];
      if wentBase64 {
        r := r + [KeyValue(companion, Some(StringValue(BASE64_NAME)))];
      }
      m := m + 1;
    }
    assert rewritten[..m] == rewritten;
  }

  /** Rewrites every value, and records the companion key of each that was bytes. */
  method RewriteEach(kvs: seq<KeyValue>) returns (r: seq<KeyValue>, rewritten: seq<(string, bool)>)
    ensures r == StripEach(kvs)
    ensures MarkersOf(rewritten) == Markers(kvs) && Keys(rewritten) == Companions(kvs)
    decreases kvs, 0
  {
    r, rewritten := [], [];
    var i := 0;
    assert kvs[0..] == kvs;
    while i < |kvs|
      invariant 0 <= i <= |kvs|
      invariant StripEach(kvs) == r + StripEach(kvs[i..])
      invariant MarkersOf(rewritten) + Markers(kvs[i..]) == Markers(kvs)
      invariant Keys(rewritten) + Companions(kvs[i..]) == Companions(kvs)
    {
      var kv := kvs[i];
      assert kvs[i..][1..] == kvs[i + 1..];
      ghost var was, soFar := rewritten, r;
      if kv.value.Some? {
        var stripped, bytes := StripOne(kv.value.value);
        kv := KeyValue(kv.key, Some(stripped));
        if bytes.Some? {
          rewritten := rewritten + [(Companion(kv.key), bytes.value)];
        }
      }
      r := r + [kv];
      Assoc(soFar, [kv], StripEach(kvs[i + 1..]));
      MarkersStep(kvs, i, was, rewritten);
      i := i + 1;
    }
    assert r + [] == r && MarkersOf(rewritten) + [] == MarkersOf(rewritten);
    assert Keys(rewritten) + {} == Keys(rewritten);
  }

  /** Drops every attribute that sits under one of the recorded companion keys. */
  method DropStale(kvs: seq<KeyValue>, rewritten: seq<(string, bool)>) returns (kept: seq<KeyValue>)
    ensures kept == Without(kvs, Keys(rewritten))
  {
    hide Keys, Without;
    kept := [];
    var k := 0;
    ghost var stale := Keys(rewritten);
    assert kvs[0..] == kvs && [] + Without(kvs, stale) == Without(kvs, stale);
    while k < |kvs|
      invariant 0 <= k <= |kvs|
      invariant Without(kvs, stale) == kept + Without(kvs[k..], stale)
    {
      WithoutStep(kvs, k, stale);
      Assoc(kept, if kvs[k].key in stale then [] else [kvs[k]], Without(kvs[k + 1..], stale));
      IsStale(rewritten, kvs[k].key);
      if forall j :: 0 <= j < |rewritten| ==> kvs[k].key != rewritten[j].0 {
        kept := kept + [kvs[k]];
      } else {
        assert kept + [] == kept;
      }
      k := k + 1;
    }
    NothingLeft(kvs[k..], stale);
    assert kept + [] == kept;
  }

  lemma WithoutStep(kvs: seq<KeyValue>, k: nat, stale: set<string>)
    requires k < |kvs|
    ensures Without(kvs[k..], stale) == (if kvs[k].key in stale then [] else [kvs[k]]) + Without(kvs[k + 1..], stale)
  {
    assert kvs[k..][1..] == kvs[k + 1..];
  }

  lemma NothingLeft(kvs: seq<KeyValue>, stale: set<string>)
    requires kvs == []
    ensures Without(kvs, stale) == []
  {
  }

  lemma IsStale(rewritten: seq<(string, bool)>, key: string)
    ensures key in Keys(rewritten) <==> exists j :: 0 <= j < |rewritten| && key == rewritten[j].0
  {
    if key in Keys(rewritten) {
      var p :| p in rewritten && key == p.0;
      var j :| 0 <= j < |rewritten| && rewritten[j] == p;
    } else {
      assert forall j :: 0 <= j < |rewritten| ==> rewritten[j] in rewritten;
    }
  }

  function Keys(rewritten: seq<(string, bool)>): set<string> {
    set p | p in rewritten :: p.0
  }

  function MarkersOf(rewritten: seq<(string, bool)>): seq<KeyValue> {
    if rewritten == [] then []
    else
      (if rewritten[0].1 then [KeyValue(rewritten[0].0, Some(StringValue(BASE64_NAME)))] else [])
      + MarkersOf(rewritten[1..])
  }

  lemma {:induction false} MarkersOfSnoc(rs: seq<(string, bool)>, p: (string, bool))
    ensures MarkersOf(rs + [p]) ==
            MarkersOf(rs) + (if p.1 then [KeyValue(p.0, Some(StringValue(BASE64_NAME)))] else [])
  {
    if rs == [] {
      assert rs + [p] == [p] && [p][1..] == [];
    } else {
      assert (rs + [p])[1..] == rs[1..] + [p];
      MarkersOfSnoc(rs[1..], p);
      Assoc(if rs[0].1 then [KeyValue(rs[0].0, Some(StringValue(BASE64_NAME)))] else [], MarkersOf(rs[1..]),
            if p.1 then [KeyValue(p.0, Some(StringValue(BASE64_NAME)))] else []);
    }
  }

  /** One attribute further, what was recorded for it is exactly its marker and its companion key. */
  lemma MarkersStep(kvs: seq<KeyValue>, i: nat, was: seq<(string, bool)>, now: seq<(string, bool)>)
    requires i < |kvs|
    requires now == was + (if IsBytes(kvs[i])
                           then [(Companion(kvs[i].key), !AsText(kvs[i].value.value.raw))] else [])
    ensures MarkersOf(now) + Markers(kvs[i + 1..]) == MarkersOf(was) + Markers(kvs[i..])
    ensures Keys(now) + Companions(kvs[i + 1..]) == Keys(was) + Companions(kvs[i..])
  {
    assert kvs[i..][1..] == kvs[i + 1..];
    assert kvs[i..] == [kvs[i]] + kvs[i + 1..];
    if IsBytes(kvs[i]) {
      MarkersOfSnoc(was, (Companion(kvs[i].key), !AsText(kvs[i].value.value.raw)));
      assert Keys(now) == Keys(was) + {Companion(kvs[i].key)};
      assert Companions(kvs[i..]) == {Companion(kvs[i].key)} + Companions(kvs[i + 1..]);
    } else {
      assert now == was;
      assert Companions(kvs[i..]) == Companions(kvs[i + 1..]);
    }
  }

  lemma {:induction false} WithoutNothing(kvs: seq<KeyValue>)
    ensures Without(kvs, {}) == kvs
  {
    if kvs != [] {
      WithoutNothing(kvs[1..]);
    }
  }

  /** One value in place: what it became, and whether it was bytes and went base64. */
  method StripOne(v: AnyValue) returns (r: AnyValue, bytes: Option<bool>)
    ensures r == StripAny(v)
    ensures bytes == if v.BytesValue? then Some(!AsText(v.raw)) else None
    decreases v
  {
    r, bytes := v, None;
    match v {
      case BytesValue(raw) =>
        if AsText(raw) {
          r, bytes := StringValue(raw), Some(false);
        } else {
          r, bytes := StringValue(Encode(raw)), Some(true);
        }
      case ArrayValue(values) =>
        var out := [];
        var i := 0;
        assert values[0..] == values;
        while i < |values|
          invariant 0 <= i <= |values|
          invariant StripValues(values) == out + StripValues(values[i..])
        {
          assert values[i..][1..] == values[i + 1..];
          var item, _ := StripOne(values[i]);
          Assoc(out, [item], StripValues(values[i + 1..]));
          out := out + [item];
          i := i + 1;
        }
        assert out + [] == out;
        r := ArrayValue(out);
      case KvlistValue(entries) =>
        var out := StripList(entries);
        r := KvlistValue(out);
      case _ =>
    }
  }

  // ---- The cap ----

  /** The bytes kept of a raw payload over the cap: whole characters of text, or whole base64 groups. */
  function Keep(b: seq<byte>, cap: nat): (n: nat)
    ensures n <= |b|
  {
    if AsText(b) then FloorBoundary(b, cap) else Min(cap / 4 * 3, |b|)
  }

  function CapAny(v: AnyValue, cap: nat): (AnyValue, bool)
    decreases v
  {
    match v
    case StringValue(s) => if |s| <= cap then (v, false) else (StringValue(s[..FloorBoundary(s, cap)]), true)
    case BytesValue(b) =>
      if |b| <= cap / 4 * 3 then (v, false)
      else if (if AsText(b) then |b| else EncodedLen(|b|)) <= cap then (v, false)
      else (BytesValue(b[..Keep(b, cap)]), true)
    case ArrayValue(values) => var (r, cut) := CapValues(values, cap); (ArrayValue(r), cut)
    case KvlistValue(entries) => var (r, cut) := CapKvs(entries, cap); (KvlistValue(r), cut)
    case OtherValue(_) => (v, false)
  }

  function CapValues(values: seq<AnyValue>, cap: nat): (seq<AnyValue>, bool)
    decreases values
  {
    if values == [] then ([], false)
    else
      var (head, cut) := CapAny(values[0], cap);
      var (tail, more) := CapValues(values[1..], cap);
      ([head] + tail, cut || more)
  }

  function CapEntry(kv: KeyValue, cap: nat): (KeyValue, bool)
    decreases kv
  {
    match kv.value
    case None => (kv, false)
    case Some(v) => var (r, cut) := CapAny(v, cap); (KeyValue(kv.key, Some(r)), cut)
  }

  function CapKvs(kvs: seq<KeyValue>, cap: nat): (seq<KeyValue>, bool)
    decreases kvs
  {
    if kvs == [] then ([], false)
    else
      var (head, cut) := CapEntry(kvs[0], cap);
      var (tail, more) := CapKvs(kvs[1..], cap);
      ([head] + tail, cut || more)
  }

  method CapList(kvs: seq<KeyValue>, cap: nat) returns (r: seq<KeyValue>, cut: bool)
    ensures (r, cut) == CapKvs(kvs, cap)
    decreases kvs
  {
    r, cut := [], false;
    var i := 0;
    assert kvs[0..] == kvs;
    assert [] + CapKvs(kvs, cap).0 == CapKvs(kvs, cap).0;
    while i < |kvs|
      invariant 0 <= i <= |kvs|
      invariant CapKvs(kvs, cap) == (r + CapKvs(kvs[i..], cap).0, cut || CapKvs(kvs[i..], cap).1)
    {
      assert kvs[i..][1..] == kvs[i + 1..];
      var kv := kvs[i];
      ghost var soFar := r;
      if kv.value.Some? {
        var v, was := CapOne(kv.value.value, cap);
        cut := cut || was;
        kv := KeyValue(kv.key, Some(v));
      }
      r := r + [kv];
      Assoc(soFar, [kv], CapKvs(kvs[i + 1..], cap).0);
      i := i + 1;
    }
    assert r + [] == r;
  }

  method CapOne(v: AnyValue, cap: nat) returns (r: AnyValue, cut: bool)
    ensures (r, cut) == CapAny(v, cap)
    decreases v
  {
    r, cut := v, false;
    match v {
      case StringValue(s) =>
        if |s| > cap {
          var at := FloorCharBoundary(s, cap);
          r, cut := StringValue(s[..at]), true;
        }
      case BytesValue(b) =>
        if |b| <= cap / 4 * 3 {
          return;
        }
        var text := AsText(b);
        var projected := if text then |b| else EncodedLen(|b|);
        if projected <= cap {
          return;
        }
        var keep := cap / 4 * 3;
        if text {
          keep := FloorCharBoundary(b, cap);
        }
        r, cut := BytesValue(b[..keep]), true;
      case ArrayValue(values) =>
        var out := [];
        var i := 0;
        assert values[0..] == values;
        assert [] + CapValues(values, cap).0 == CapValues(values, cap).0;
        while i < |values|
          invariant 0 <= i <= |values|
          invariant CapValues(values, cap)
            == (out + CapValues(values[i..], cap).0, cut || CapValues(values[i..], cap).1)
        {
          assert values[i..][1..] == values[i + 1..];
          var item, was := CapOne(values[i], cap);
          Assoc(out, [item], CapValues(values[i + 1..], cap).0);
          out := out + [item];
          cut := cut || was;
          i := i + 1;
        }
        assert out + [] == out;
        r := ArrayValue(out);
      case KvlistValue(entries) =>
        var out, was := CapList(entries, cap);
        r, cut := KvlistValue(out), was;
      case OtherValue(_) =>
    }
  }
}
