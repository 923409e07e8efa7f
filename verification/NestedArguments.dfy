/** What the name scan promises: no secret argument is missed, and no depth of percent-encoding hides one. */
module NestedArguments {
  import opened Bytes
  import opened Options
  import opened Splices
  import opened SecretContainer
  import opened Percent
  import opened NameScan
  import opened ScanOrder
  import Utf8

  // ----- No secret argument is missed -----

  /** `eq` ends a name that reads as a secret. */
  predicate SecretAt(b: seq<byte>, eq: nat, judge: Judge) {
    && eq < |b| && b[eq] == EQUALS
    && NameStart(b, eq, eq).Some?
    && NameStart(b, eq, eq).value < eq && NamesSecret(b, NameStart(b, eq, eq).value, eq, judge)
  }

  predicate WorthHiding(value: seq<byte>) {
    value != [] && value != PLACEHOLDER
  }

  /** One hit replaces every byte between two positions. */
  predicate Replaced(hits: seq<Edit>, from: nat, to: nat) {
    exists h :: h in hits && h.start <= from && to <= h.end
  }

  /** A member under a secret name, replaced or walked as a whole, that the scan resumed behind. */
  predicate InsideMember(b: seq<byte>, eq: nat, judge: Judge) {
    exists i :: 0 <= i < eq && i < |b| && b[i] == COLON
      && JsonAt(b, i, judge).resume.Some? && eq < JsonAt(b, i, judge).resume.value
  }

  lemma {:induction false} SameEnd(b: seq<byte>, i: nat, j: nat)
    requires i <= |b| && i <= j <= ValueEnd(b, i, true)
    ensures j <= |b| && ValueEnd(b, j, true) == ValueEnd(b, i, true)
    decreases j - i
  {
    if i < j {
      SameEnd(b, i + 1, j);
    }
  }

  lemma ReplacedLater(first: seq<Edit>, rest: seq<Edit>, from: nat, to: nat)
    requires Replaced(rest, from, to)
    ensures Replaced(first + rest, from, to)
  {
    var h :| h in rest && h.start <= from && to <= h.end;
    assert h in first + rest;
  }

  lemma ReplacedNow(h: Edit, rest: seq<Edit>, from: nat, to: nat)
    requires h.start <= from && to <= h.end
    ensures Replaced([h] + rest, from, to)
  {
    assert h in [h] + rest;
  }

  /** What `FormAt` answers at a secret: the hit, unless there is nothing worth hiding. */
  lemma SecretFormAt(b: seq<byte>, eq: nat, judge: Judge)
    requires SecretAt(b, eq, judge)
    ensures var end := ValueEnd(b, eq + 1, true);
      FormAt(b, eq, judge)
        == if WorthHiding(b[eq + 1..end]) then Found([Edit(eq + 1, end, PLACEHOLDER)], Some(end)) else NOTHING
  {
    hide NamesSecret;
  }

  /** A form hit the scan resumes behind is a secret's value up to its terminator. */
  lemma FormResume(b: seq<byte>, eq: nat, judge: Judge)
    requires eq < |b| && FormAt(b, eq, judge).resume.Some?
    ensures FormAt(b, eq, judge)
      == Found([Edit(eq + 1, ValueEnd(b, eq + 1, true), PLACEHOLDER)], Some(ValueEnd(b, eq + 1, true)))
  {
    hide NamesSecret, ValueEnd, EncodedAt;
  }

  /** Every value under a secret name is replaced to its last byte, by its own hit or by one it lies in;
      the only text passed over is what a JSON member under a secret name already took. */
  lemma {:induction false} NoSecretArgumentSurvives(b: seq<byte>, i: nat, eq: nat, judge: Judge)
    requires i <= eq && SecretAt(b, eq, judge)
    requires WorthHiding(b[eq + 1..ValueEnd(b, eq + 1, true)])
    ensures Replaced(ScanFrom(b, i, judge), eq + 1, ValueEnd(b, eq + 1, true)) || InsideMember(b, eq, judge)
    decreases eq - i
  {
    hide FormAt, JsonAt, SecretAt, ValueEnd, Replaced, InsideMember;
    SecretIsEquals(b, eq, judge);
    var end := ValueEnd(b, eq + 1, true);
    var f := StepAt(b, i, judge);
    var rest := ScanFrom(b, Next(i, f), judge);
    if i == eq {
      SecretFormAt(b, eq, judge);
      ReplacedNow(Edit(eq + 1, end, PLACEHOLDER), rest, eq + 1, end);
    } else if Next(i, f) <= eq {
      NoSecretArgumentSurvives(b, Next(i, f), eq, judge);
      if Replaced(rest, eq + 1, end) {
        ReplacedLater(f.hits, rest, eq + 1, end);
      }
    } else if b[i] == EQUALS {
      FormResume(b, i, judge);
      SameEnd(b, i + 1, eq);
      SameEndPast(b, eq);
      ReplacedNow(f.hits[0], rest, eq + 1, end);
    } else {
      JsonTookIt(b, i, eq, judge);
    }
  }

  lemma SecretIsEquals(b: seq<byte>, eq: nat, judge: Judge)
    requires SecretAt(b, eq, judge)
    ensures eq < |b| && b[eq] == EQUALS
  {
  }

  lemma SameEndPast(b: seq<byte>, eq: nat)
    requires eq < |b| && b[eq] == EQUALS
    ensures ValueEnd(b, eq, true) == ValueEnd(b, eq + 1, true)
  {
  }

  lemma JsonTookIt(b: seq<byte>, i: nat, eq: nat, judge: Judge)
    requires i < eq < |b| && b[i] == COLON
    requires JsonAt(b, i, judge).resume.Some? && eq < JsonAt(b, i, judge).resume.value
    ensures InsideMember(b, eq, judge)
  {
  }

  // ----- Masking sees through percent-encoding -----

  /** Every byte is one an encoder may leave as it is, or part of an escape. */
  predicate Closed(e: seq<byte>) {
    forall c :: c in e ==> c < 128 && !IsValueEnd(c) && c != EQUALS
  }

  predicate UnitsFor(us: seq<seq<byte>>, text: seq<byte>) {
    && |us| == |text|
    && (forall i :: 0 <= i < |us| ==> Encodes(us[i], text[i]))
    && Closed(Flatten(us))
  }

  /** A name no rule calls secret. */
  predicate Ordinary(name: seq<byte>, judge: Judge) {
    && 0 < |name| <= MAX_NAME_LEN
    && (forall c :: c in name ==> IsNameByte(c))
    && !judge(name, UrlForm)
  }

  function Argument(name: seq<byte>, value: seq<byte>): seq<byte> {
    name + [EQUALS] + value
  }

  ghost function Hits(text: seq<byte>, judge: Judge): seq<Edit> {
    ScanFrom(Utf8.StandIn(text), 0, judge)
  }

  lemma HitsInOrder(text: seq<byte>, judge: Judge)
    ensures InOrder(Hits(text, judge), 0, |text|)
  {
    hide ScanFrom;
    Utf8.StandInKeepsOffsets(text);
    ScanInOrder(Utf8.StandIn(text), 0, judge);
  }

  /** The text with a placeholder over every hit. */
  ghost function MaskNames(text: seq<byte>, judge: Judge): seq<byte>
  {
    HitsInOrder(text, judge);
    InOrderIsRanged(Hits(text, judge), 0, |text|);
    Splice(text, Placed(Hits(text, judge)), 0, |text|)
  }

  lemma {:induction false} NameReadsBack(b: seq<byte>, eq: nat, s: nat)
    requires s <= eq <= |b| && eq <= MAX_NAME_LEN && forall j :: 0 <= j < s ==> IsNameByte(b[j])
    ensures NameStart(b, eq, s) == Some(0)
  {
    if s > 0 {
      NameReadsBack(b, eq, s - 1);
    }
  }

  lemma {:induction false} ClosedRunsToEnd(b: seq<byte>, i: nat, secret: bool)
    requires i <= |b| && forall j :: i <= j < |b| ==> !IsValueEnd(b[j]) && (secret || b[j] != EQUALS)
    ensures ValueEnd(b, i, secret) == |b|
    decreases |b| - i
  {
    if i < |b| {
      ClosedRunsToEnd(b, i + 1, secret);
    }
  }

  /** The scan of an ordinary argument is the scan of what its value decodes to. */
  lemma OrdinaryArgumentScan(name: seq<byte>, e: seq<byte>, judge: Judge)
    requires Ordinary(name, judge) && Closed(e)
    ensures var text := Argument(name, e);
      ScanFrom(text, 0, judge) == if PERCENT in e then EncodedAt(text, |name| + 1, |text|, judge) else []
  {
    hide EncodedAt, JsonAt, FormAt, Closed, Ordinary;
    var text, eq := Argument(name, e), |name|;
    assert text[eq] == EQUALS;
    ArgumentIsQuiet(name, e, judge);
    QuietScan(text, 0, 0, eq, judge);
    QuietScan(text, eq + 1, eq + 1, |text|, judge);
    OrdinaryFormAt(name, e, judge);
    var f := FormAt(text, eq, judge);
    assert f.hits + [] == f.hits;
    assert ScanFrom(text, |text|, judge) == [];
  }

  lemma ArgumentIsQuiet(name: seq<byte>, e: seq<byte>, judge: Judge)
    requires Ordinary(name, judge) && Closed(e)
    ensures Quiet(Argument(name, e), 0, |name|) && Quiet(Argument(name, e), |name| + 1, |Argument(name, e)|)
  {
    var text := Argument(name, e);
    assert forall j :: 0 <= j < |name| ==> text[j] == name[j] && name[j] in name;
    assert forall j :: |name| + 1 <= j < |text| ==> text[j] == e[j - |name| - 1] && e[j - |name| - 1] in e;
  }

  lemma OrdinaryFormAt(name: seq<byte>, e: seq<byte>, judge: Judge)
    requires Ordinary(name, judge) && Closed(e)
    ensures var text := Argument(name, e);
      FormAt(text, |name|, judge)
        == if PERCENT in e then Found(EncodedAt(text, |name| + 1, |text|, judge), None) else NOTHING
  {
    hide EncodedAt, IsNameByte, IsValueEnd, NameStart, ValueEnd;
    var text, eq := Argument(name, e), |name|;
    assert forall j :: 0 <= j < eq ==> text[j] == name[j] && name[j] in name;
    assert forall j :: eq + 1 <= j < |text| ==> text[j] == e[j - eq - 1] && e[j - eq - 1] in e;
    NameReadsBack(text, eq, eq);
    assert text[0..eq] == name && text[eq + 1..] == e && text[eq + 1..|text|] == e;
    ClosedRunsToEnd(text, eq + 1, false);
  }

  lemma SliceShifted(p: seq<byte>, e: seq<byte>, from: nat, to: nat)
    requires from <= to <= |e|
    ensures (p + e)[|p| + from..|p| + to] == e[from..to]
  {
  }

  lemma {:induction false} SpliceShifted(p: seq<byte>, e: seq<byte>, hits: seq<Edit>, from: nat, to: nat)
    requires InOrder(hits, from, to) && to <= |e|
    ensures InOrder(Shift(hits, |p|), |p| + from, |p| + to)
    ensures Splice(p + e, Shift(hits, |p|), |p| + from, |p| + to) == Splice(e, hits, from, to)
    decreases |hits|
  {
    hide Splice, Shift;
    InOrderBounds(hits, from, to);
    if hits == [] {
      SliceShifted(p, e, from, to);
      SpliceNothing(e, from, to);
      SpliceNothing(p + e, |p| + from, |p| + to);
      assert Shift(hits, |p|) == [];
    } else {
      var h := hits[0];
      InOrderBounds(hits[1..], h.end, to);
      SpliceShifted(p, e, hits[1..], h.end, to);
      SliceShifted(p, e, from, h.start);
      ShiftCons(hits, |p|);
      SpliceCons(e, hits, from, to);
      SpliceCons(p + e, Shift(hits, |p|), |p| + from, |p| + to);
    }
  }

  lemma ShiftCons(hits: seq<Edit>, delta: nat)
    requires hits != []
    ensures Shift(hits, delta) != []
    ensures Shift(hits, delta)[0] == Edit(delta + hits[0].start, delta + hits[0].end, hits[0].replacement)
    ensures Shift(hits, delta)[1..] == Shift(hits[1..], delta)
  {
  }

  lemma {:induction false} PlacedTwice(e: seq<byte>, hits: seq<Edit>, delta: nat)
    requires forall h :: h in hits ==> h.start <= h.end <= |Decode(e)|
    ensures Placed(Shift(MapBack(e, hits), delta)) == Shift(MapBack(e, hits), delta)
    decreases |hits|
  {
    if hits != [] {
      PlacedTwice(e, hits[1..], delta);
      assert MapBack(e, hits)[1..] == MapBack(e, hits[1..]);
    }
  }

  lemma {:induction false} AsciiIsText(s: seq<byte>)
    requires forall c :: c in s ==> c < 128
    ensures Utf8.StandIn(s) == s
  {
    if s != [] {
      assert s[0] in s && forall c :: c in s[1..] ==> c in s;
      AsciiIsText(s[1..]);
      assert Utf8.CharLen(s) == 1 && s[..1] + s[1..] == s;
    }
  }

  lemma ArgumentIsText(name: seq<byte>, e: seq<byte>, judge: Judge)
    requires Ordinary(name, judge) && Closed(e)
    ensures Utf8.StandIn(Argument(name, e)) == Argument(name, e)
  {
    AsciiIsText(Argument(name, e));
  }

  /** Units of one byte each spell a text with nothing for the scan to stop at. */
  lemma {:induction false} RawUnitsAreQuiet(us: seq<seq<byte>>, text: seq<byte>)
    requires |us| == |text| && (forall i :: 0 <= i < |us| ==> Encodes(us[i], text[i])) && Closed(Flatten(us))
    ensures |Flatten(us)| >= |text|
    ensures |Flatten(us)| == |text| ==> PERCENT !in Flatten(us) && Quiet(text, 0, |text|)
    ensures |Flatten(us)| > |text| ==> PERCENT in Flatten(us)
    decreases |text|
  {
    if text != [] {
      var u, rest := us[0], Flatten(us[1..]);
      assert Encodes(u, text[0]);
      assert forall c :: c in rest ==> c in Flatten(us);
      RawUnitsAreQuiet(us[1..], text[1..]);
      assert u[0] in Flatten(us);
      if |u| == 1 && |rest| == |text| - 1 {
        assert forall j :: 1 <= j < |text| ==> text[j] == text[1..][j - 1];
        assert text[0] == u[0] || text[0] == 32;
      }
    }
  }

  lemma QuietStandIn(text: seq<byte>)
    requires Quiet(text, 0, |text|)
    ensures |Utf8.StandIn(text)| == |text| && Quiet(Utf8.StandIn(text), 0, |text|)
  {
    Utf8.StandInKeepsOffsets(text);
    assert forall j :: 0 <= j < |text| ==> Utf8.StandsFor(Utf8.StandIn(text)[j], text[j]);
  }

  /** The hits of an encoded argument are the hits of what it carries, moved. */
  lemma WrappedHits(name: seq<byte>, us: seq<seq<byte>>, text: seq<byte>, judge: Judge)
    requires Ordinary(name, judge) && UnitsFor(us, text)
    ensures Decode(Flatten(us)) == text && InText(Hits(text, judge), |text|)
    ensures Hits(Argument(name, Flatten(us)), judge) == Shift(MapBack(Flatten(us), Hits(text, judge)), |name| + 1)
  {
    hide Ordinary, Closed, Quiet, ScanFrom, Decode, Encodes, Utf8.StandIn, Shift, MapBack;
    var e := Flatten(us);
    var outer := Argument(name, e);
    DecodeInvertsEncode(text, us);
    Utf8.StandInKeepsOffsets(text);
    ArgumentIsText(name, e, judge);
    OrdinaryArgumentScan(name, e, judge);
    RawUnitsAreQuiet(us, text);
    assert outer[|name| + 1..|outer|] == e;
    if |e| == |text| {
      QuietStandIn(text);
      QuietScan(Utf8.StandIn(text), 0, 0, |text|, judge);
      NothingToScan(Utf8.StandIn(text), judge);
      NothingToCarry(e, Hits(text, judge), |name| + 1);
    }
  }

  lemma NothingToScan(b: seq<byte>, judge: Judge)
    ensures ScanFrom(b, |b|, judge) == []
  {
  }

  lemma NothingToCarry(e: seq<byte>, hits: seq<Edit>, delta: nat)
    requires hits == []
    ensures Shift(MapBack(e, hits), delta) == []
  {
  }

  /** Decoding a masked argument gives the masked text it carries. */
  lemma MaskingSeesThroughOneLayer(name: seq<byte>, us: seq<seq<byte>>, text: seq<byte>, judge: Judge)
    requires Ordinary(name, judge) && UnitsFor(us, text)
    ensures var outer := Argument(name, Flatten(us));
      && var masked := MaskNames(outer, judge);
      && |masked| > |name| && masked[..|name| + 1] == name + [EQUALS]
      && Decode(masked[|name| + 1..]) == MaskNames(text, judge)
  {
    hide Ordinary, UnitsFor, ScanFrom, Decode, Shift, MapBack, Placed, Splice, InOrder, Offset, Flatten, Hits;
    var e, p := Flatten(us), name + [EQUALS];
    var outer, hits := Argument(name, e), Hits(text, judge);
    WrappedHits(name, us, text, judge);
    HitsInOrder(text, judge);
    HitsInOrder(outer, judge);
    InOrderIsRanged(hits, 0, |text|);
    DecodingMaskedIsMaskingDecoded(e, hits, 0, |text|);
    OffsetEnds(e);
    assert Offset(e, 0) == 0 by {
      CutAtFront(e);
    }
    var carried := MapBack(e, hits);
    SpliceShifted(p, e, carried, 0, |e|);
    PlacedTwice(e, hits, |p|);
    SpliceFrom(outer, Shift(carried, |p|), 0, |p|, |outer|);
    assert outer[0..|p|] == p;
    var body := Splice(e, carried, 0, |e|);
    assert (p + body)[..|p|] == p && (p + body)[|p|..] == body;
  }

  // ----- Any number of layers -----

  datatype Layer = Layer(name: seq<byte>, units: seq<seq<byte>>)

  /** The innermost layer first. */
  function Wrap(text: seq<byte>, ls: seq<Layer>): seq<byte>
    decreases |ls|
  {
    if ls == [] then text else Wrap(Argument(ls[0].name, Flatten(ls[0].units)), ls[1..])
  }

  predicate WellWrapped(text: seq<byte>, ls: seq<Layer>, judge: Judge)
    decreases |ls|
  {
    ls == [] ||
    (Ordinary(ls[0].name, judge) && UnitsFor(ls[0].units, text)
     && WellWrapped(Argument(ls[0].name, Flatten(ls[0].units)), ls[1..], judge))
  }

  function Peel(l: Layer, text: seq<byte>): seq<byte> {
    if |text| > |l.name| then Decode(text[|l.name| + 1..]) else []
  }

  function Unwrap(text: seq<byte>, ls: seq<Layer>): seq<byte>
    decreases |ls|
  {
    if ls == [] then text else Peel(ls[0], Unwrap(text, ls[1..]))
  }

  /** However deep a text is percent-encoded inside ordinary arguments, masking the outermost text and
      decoding it all the way gives the masked text. */
  lemma {:induction false} MaskingSeesThroughEncoding(text: seq<byte>, ls: seq<Layer>, judge: Judge)
    requires WellWrapped(text, ls, judge)
    ensures Unwrap(MaskNames(Wrap(text, ls), judge), ls) == MaskNames(text, judge)
    decreases |ls|
  {
    hide Ordinary, UnitsFor, Hits, MaskNames, Argument, Flatten, Decode;
    if ls != [] {
      MaskingSeesThroughOneLayer(ls[0].name, ls[0].units, text, judge);
      MaskingSeesThroughEncoding(Argument(ls[0].name, Flatten(ls[0].units)), ls[1..], judge);
    }
  }

  /** In particular a secret argument, however deep, comes out as its name and a placeholder. */
  lemma EncodedSecretIsMasked(name: seq<byte>, value: seq<byte>, ls: seq<Layer>, judge: Judge)
    requires 0 < |name| <= MAX_NAME_LEN && (forall c :: c in name ==> IsNameByte(c)) && judge(name, UrlForm)
    requires WorthHiding(value) && (forall c :: c in value ==> c < 128 && !IsValueEnd(c))
    requires WellWrapped(Argument(name, value), ls, judge)
    ensures Unwrap(MaskNames(Wrap(Argument(name, value), ls), judge), ls) == Argument(name, PLACEHOLDER)
  {
    hide Hits, WellWrapped, Wrap, Unwrap, MaskNames;
    SecretArgumentHits(name, value, judge);
    var text := Argument(name, value);
    var hit := Edit(|name| + 1, |text|, PLACEHOLDER);
    SpliceOne(text, hit, 0, |text|);
    MaskedOnce(text, hit, judge);
    assert text[0..|name| + 1] + PLACEHOLDER + text[|text|..|text|] == Argument(name, PLACEHOLDER);
    MaskingSeesThroughEncoding(text, ls, judge);
  }

  lemma MaskedOnce(text: seq<byte>, hit: Edit, judge: Judge)
    requires Hits(text, judge) == [hit] && InOrder([hit], 0, |text|) && hit.replacement == PLACEHOLDER
    ensures MaskNames(text, judge) == Splice(text, [hit], 0, |text|)
  {
    assert Placed([hit]) == [hit];
  }

  lemma SecretArgumentHits(name: seq<byte>, value: seq<byte>, judge: Judge)
    requires 0 < |name| <= MAX_NAME_LEN && (forall c :: c in name ==> IsNameByte(c)) && judge(name, UrlForm)
    requires WorthHiding(value) && (forall c :: c in value ==> c < 128 && !IsValueEnd(c))
    ensures var text := Argument(name, value);
      Hits(text, judge) == [Edit(|name| + 1, |text|, PLACEHOLDER)]
  {
    hide NameStart, ValueEnd, FormAt, JsonAt, SecretAt, IsValueEnd, IsNameByte;
    var text, eq := Argument(name, value), |name|;
    assert forall j :: 0 <= j < eq ==> text[j] == name[j] && name[j] in name;
    NamesAreText(name);
    AsciiIsText(text);
    QuietScan(text, 0, 0, eq, judge);
    SecretArgumentAt(name, value, judge);
    SecretFormAt(text, eq, judge);
    NothingToScan(text, judge);
    var hit := Edit(eq + 1, |text|, PLACEHOLDER);
    assert [hit] + [] == [hit];
  }

  lemma NamesAreText(name: seq<byte>)
    requires forall c :: c in name ==> IsNameByte(c)
    ensures forall c :: c in name ==> c < 128 && c != EQUALS && !IsQuote(c)
  {
  }

  lemma SecretArgumentAt(name: seq<byte>, value: seq<byte>, judge: Judge)
    requires 0 < |name| <= MAX_NAME_LEN && (forall c :: c in name ==> IsNameByte(c)) && judge(name, UrlForm)
    requires forall c :: c in value ==> c < 128 && !IsValueEnd(c)
    ensures var text := Argument(name, value);
      && SecretAt(text, |name|, judge)
      && ValueEnd(text, |name| + 1, true) == |text|
      && text[|name| + 1..|text|] == value
  {
    hide NameStart, ValueEnd, IsValueEnd, IsNameByte;
    var text, eq := Argument(name, value), |name|;
    assert forall j :: 0 <= j < eq ==> text[j] == name[j] && name[j] in name;
    assert forall j :: eq + 1 <= j < |text| ==> text[j] == value[j - eq - 1] && value[j - eq - 1] in value;
    NameReadsBack(text, eq, eq);
    ClosedRunsToEnd(text, eq + 1, true);
    assert text[0..eq] == name && text[eq + 1..|text|] == value;
  }
}
