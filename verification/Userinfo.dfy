/** The credentials of every `scheme://userinfo@host` in a text. */
module Userinfo {
  import opened Bytes
  import opened Options

  const AT_SIGN: byte := 64
  const REDACTED: seq<byte> := Ascii("REDACTED")
  const REDACTED_PAIR: seq<byte> := Ascii("REDACTED:REDACTED")

  datatype Span = Span(start: nat, end: nat)

  predicate IsAlpha(c: byte) {
    65 <= c <= 90 || 97 <= c <= 122
  }

  predicate InScheme(c: byte) {
    IsAlpha(c) || 48 <= c <= 57 || c == 43 || c == 46 || c == 45
  }

  /** Whitespace, or one of `/ ? # [ ] " ' < > \ , ( ) & = ;`. */
  predicate EndsUserinfo(c: byte) {
    || c == 32 || c == 9 || c == 10 || c == 12 || c == 13
    || c == 47 || c == 63 || c == 35 || c == 91 || c == 93 || c == 34 || c == 39 || c == 60 || c == 62
    || c == 92 || c == 44 || c == 40 || c == 41 || c == 38 || c == 61 || c == 59
  }

  predicate SeparatorAt(b: seq<byte>, i: nat) {
    i + 3 <= |b| && b[i] == 58 && b[i + 1] == 47 && b[i + 2] == 47
  }

  function NextSeparator(b: seq<byte>, from: nat): (r: Option<nat>)
    ensures r.Some? ==> from <= r.value && SeparatorAt(b, r.value)
    decreases |b| - from
  {
    if from + 3 > |b| then None
    else if SeparatorAt(b, from) then Some(from)
    else NextSeparator(b, from + 1)
  }

  /** Whether a letter stands somewhere in the run of scheme bytes that ends at `i`. */
  predicate HasScheme(b: seq<byte>, i: nat)
    requires i <= |b|
  {
    i > 0 && InScheme(b[i - 1]) && (IsAlpha(b[i - 1]) || HasScheme(b, i - 1))
  }

  function StopAt(b: seq<byte>, i: nat): (r: nat)
    requires i <= |b|
    ensures i <= r <= |b| && (forall j :: i <= j < r ==> !EndsUserinfo(b[j])) && (r < |b| ==> EndsUserinfo(b[r]))
    decreases |b| - i
  {
    if i < |b| && !EndsUserinfo(b[i]) then StopAt(b, i + 1) else i
  }

  /** The last `@` of a stretch. */
  function LastAt(b: seq<byte>, start: nat, stop: nat): (r: Option<nat>)
    requires start <= stop <= |b|
    ensures r.Some? ==> start <= r.value < stop && b[r.value] == AT_SIGN
    ensures forall j :: (if r.Some? then r.value + 1 else start) <= j < stop ==> b[j] != AT_SIGN
    decreases stop
  {
    if start == stop then None
    else if b[stop - 1] == AT_SIGN then Some(stop - 1)
    else LastAt(b, start, stop - 1)
  }

  function Redaction(userinfo: seq<byte>): seq<byte> {
    if 58 in userinfo then REDACTED_PAIR else REDACTED
  }

  /** The userinfo after the separator at `sep`: up to the last `@` before anything that ends an authority. */
  function SpanAt(b: seq<byte>, sep: nat): Option<Span>
    requires SeparatorAt(b, sep)
  {
    var start := sep + 3;
    if !HasScheme(b, sep) then None
    else
      match LastAt(b, start, StopAt(b, start))
      case None => None
      case Some(end) =>
        if end == start || b[start..end] == Redaction(b[start..end]) then None else Some(Span(start, end))
  }

  function Spans(b: seq<byte>, from: nat): seq<Span>
    decreases |b| - from
  {
    match NextSeparator(b, from)
    case None => []
    case Some(sep) =>
      (match SpanAt(b, sep) case None => [] case Some(s) => [s]) + Spans(b, sep + 3)
  }

  method FindSpans(b: seq<byte>) returns (spans: seq<Span>)
    ensures spans == Spans(b, 0)
  {
    spans := [];
    var from: nat := 0;
    assert [] + Spans(b, 0) == Spans(b, 0);
    while true
      invariant from <= |b|
      invariant Spans(b, 0) == spans + Spans(b, from)
      decreases |b| - from
    {
      var next := NextSeparator(b, from);
      if next.None? {
        assert spans + [] == spans;
        return;
      }
      var sep := next.value;
      from := sep + 3;
      var span := ReadSpan(b, sep);
      Assoc(spans, match span case None => [] case Some(s) => [s], Spans(b, from));
      if span.Some? {
        spans := spans + [span.value];
      } else {
        assert spans + [] == spans;
      }
    }
  }

  method ReadSpan(b: seq<byte>, sep: nat) returns (span: Option<Span>)
    requires SeparatorAt(b, sep)
    ensures span == SpanAt(b, sep)
  {
    hide HasScheme, EndsUserinfo, Redaction;
    var scheme := ReadScheme(b, sep);
    if !scheme {
      return None;
    }
    var start := sep + 3;
    var stop := start;
    var at: Option<nat> := None;
    while stop < |b| && !EndsUserinfo(b[stop])
      invariant start <= stop <= |b|
      invariant StopAt(b, start) == StopAt(b, stop)
      invariant at == LastAt(b, start, stop)
    {
      if b[stop] == AT_SIGN {
        at := Some(stop);
      }
      stop := stop + 1;
    }
    if at.None? || at.value == start {
      return None;
    }
    var userinfo := b[start..at.value];
    if userinfo == Redaction(userinfo) {
      return None;
    }
    return Some(Span(start, at.value));
  }

  /** Walks back over the scheme and forward again past the digits glued on before it. */
  method ReadScheme(b: seq<byte>, sep: nat) returns (found: bool)
    requires sep <= |b|
    ensures found == HasScheme(b, sep)
  {
    var s: nat := sep;
    while s > 0 && InScheme(b[s - 1])
      invariant s <= sep
      invariant forall j :: s <= j < sep ==> InScheme(b[j])
    {
      s := s - 1;
    }
    var start := s;
    while s < sep && !IsAlpha(b[s])
      invariant start <= s <= sep
      invariant forall j :: start <= j < s ==> !IsAlpha(b[j])
    {
      s := s + 1;
    }
    found := s != sep;
    SchemeLetter(b, start, sep, s);
  }

  /** The run of scheme bytes `start..sep` holds a letter exactly when its first letter `s` is not past its end. */
  lemma {:induction false} SchemeLetter(b: seq<byte>, start: nat, sep: nat, s: nat)
    requires start <= s <= sep <= |b|
    requires forall j :: start <= j < sep ==> InScheme(b[j])
    requires start > 0 ==> !InScheme(b[start - 1])
    requires forall j :: start <= j < s ==> !IsAlpha(b[j])
    requires s < sep ==> IsAlpha(b[s])
    ensures HasScheme(b, sep) <==> s != sep
    decreases sep
  {
    if sep > start {
      if s < sep {
        if s + 1 < sep {
          SchemeLetter(b, start, sep - 1, s);
        }
      } else {
        SchemeLetter(b, start, sep - 1, s - 1);
      }
    }
  }

  /** Spans in text order, each ending before the next begins. */
  predicate Apart(spans: seq<Span>, from: nat) {
    spans == [] || (from <= spans[0].start < spans[0].end && Apart(spans[1..], spans[0].end + 1))
  }

  lemma ApartFrom(spans: seq<Span>, from: nat, lower: nat)
    requires Apart(spans, from) && lower <= from
    ensures Apart(spans, lower)
  {
  }

  /** Where the first span found from `from` on can start. */
  function FirstStart(b: seq<byte>, from: nat): (r: nat)
    ensures r >= from
  {
    match NextSeparator(b, from)
    case None => from
    case Some(sep) => sep + 3
  }

  /** A span holds no `/`, so it ends before the next separator. */
  lemma SpanEndsFirst(b: seq<byte>, sep: nat, from: nat)
    requires SeparatorAt(b, sep) && from == sep + 3 && SpanAt(b, sep).Some?
    ensures SpanAt(b, sep).value.start == from < SpanAt(b, sep).value.end < |b|
    ensures NextSeparator(b, from).Some? ==> SpanAt(b, sep).value.end < FirstStart(b, from)
  {
    var next := NextSeparator(b, from);
    if next.Some? {
      assert b[next.value + 1] == 47 && EndsUserinfo(47);
    }
  }

  lemma SpansStep(b: seq<byte>, from: nat)
    requires NextSeparator(b, from).Some?
    ensures var sep := NextSeparator(b, from).value;
            var rest := Spans(b, sep + 3);
            match SpanAt(b, sep)
            case None => Spans(b, from) == rest
            case Some(s) => Spans(b, from) != [] && Spans(b, from)[0] == s && Spans(b, from)[1..] == rest
  {
    hide SpanAt, NextSeparator;
    var sep := NextSeparator(b, from).value;
    assert [] + Spans(b, sep + 3) == Spans(b, sep + 3);
    match SpanAt(b, sep)
    case None =>
    case Some(s) => assert ([s] + Spans(b, sep + 3))[1..] == Spans(b, sep + 3);
  }

  /** A span never reaches the next separator, so the spans found are in order and apart. */
  lemma {:induction false} SpansAreApart(b: seq<byte>, from: nat)
    ensures Apart(Spans(b, from), FirstStart(b, from)) && Apart(Spans(b, from), from)
    decreases |b| - from
  {
    hide SpanAt, Spans;
    match NextSeparator(b, from)
    case None => NoSpans(b, from);
    case Some(sep) =>
      SpansAreApart(b, sep + 3);
      SpansStep(b, from);
      if SpanAt(b, sep).Some? {
        SpanEndsFirst(b, sep, sep + 3);
        if NextSeparator(b, sep + 3).None? {
          NoSpans(b, sep + 3);
        } else {
          ApartFrom(Spans(b, sep + 3), FirstStart(b, sep + 3), SpanAt(b, sep).value.end + 1);
        }
      } else {
        ApartFrom(Spans(b, sep + 3), sep + 3, from);
      }
  }

  lemma NoSpans(b: seq<byte>, from: nat)
    requires NextSeparator(b, from).None?
    ensures Spans(b, from) == []
  {
  }

  // ---- What is found, said without the search ----

  /** A scheme with a letter in it ends at `i`. */
  ghost predicate SchemeBefore(b: seq<byte>, i: nat) {
    i <= |b| && exists k: nat :: k < i && IsAlpha(b[k]) && forall j :: k <= j < i ==> InScheme(b[j])
  }

  /** From `i` on, what ends an authority comes before any `@`. */
  ghost predicate NoAtAhead(b: seq<byte>, i: nat) {
    forall j :: i <= j < |b| && b[j] == AT_SIGN ==> exists k :: i <= k < j && EndsUserinfo(b[k])
  }

  /** The bytes `start..end` are a credential: after `scheme://`, up to the last `@` of the authority, not empty
      and not what redaction leaves. */
  ghost predicate Credential(b: seq<byte>, start: nat, end: nat) {
    && 3 <= start < end < |b|
    && SchemeBefore(b, start - 3) && b[start - 3] == 58 && b[start - 2] == 47 && b[start - 1] == 47
    && (forall j :: start <= j < end ==> !EndsUserinfo(b[j])) && b[end] == AT_SIGN && NoAtAhead(b, end + 1)
    && b[start..end] != REDACTED && b[start..end] != REDACTED_PAIR
  }

  lemma {:induction false} SchemeIsBefore(b: seq<byte>, i: nat)
    requires i <= |b|
    ensures HasScheme(b, i) <==> SchemeBefore(b, i)
  {
    hide IsAlpha, InScheme;
    if i > 0 && InScheme(b[i - 1]) && !IsAlpha(b[i - 1]) {
      SchemeIsBefore(b, i - 1);
      if SchemeBefore(b, i - 1) {
        var k: nat :| k < i - 1 && IsAlpha(b[k]) && forall j :: k <= j < i - 1 ==> InScheme(b[j]);
        assert forall j :: k <= j < i ==> InScheme(b[j]);
      }
      if SchemeBefore(b, i) {
        var k: nat :| k < i && IsAlpha(b[k]) && forall j :: k <= j < i ==> InScheme(b[j]);
        assert k < i - 1 && forall j :: k <= j < i - 1 ==> InScheme(b[j]);
      }
    } else if i > 0 && IsAlpha(b[i - 1]) {
      assert InScheme(b[i - 1]) ==> forall j :: i - 1 <= j < i ==> InScheme(b[j]);
      LettersAreScheme(b[i - 1]);
    }
  }

  lemma LettersAreScheme(c: byte)
    ensures IsAlpha(c) ==> InScheme(c)
  {
  }

  lemma AtIsNoEnd()
    ensures !EndsUserinfo(AT_SIGN)
  {
  }

  lemma RedactionsDiffer(u: seq<byte>)
    ensures u == Redaction(u) <==> u == REDACTED || u == REDACTED_PAIR
  {
    assert REDACTED_PAIR[8] == 58;
    assert forall i :: 0 <= i < 8 ==> REDACTED[i] != 58;
  }

  /** A separator yields a span exactly when a credential starts behind it. */
  lemma SpanIsCredential(b: seq<byte>, sep: nat, end: nat)
    requires SeparatorAt(b, sep)
    ensures SpanAt(b, sep) == Some(Span(sep + 3, end)) <==> Credential(b, sep + 3, end)
  {
    hide IsAlpha, InScheme, EndsUserinfo, HasScheme, SchemeBefore, Redaction, REDACTED, REDACTED_PAIR;
    var start := sep + 3;
    var stop := StopAt(b, start);
    SchemeIsBefore(b, sep);
    AtIsNoEnd();
    if SpanAt(b, sep) == Some(Span(start, end)) {
      RedactionsDiffer(b[start..end]);
      forall j | end + 1 <= j < |b| && b[j] == AT_SIGN
        ensures exists k :: end + 1 <= k < j && EndsUserinfo(b[k])
      {
        assert stop < j;
      }
    }
    if Credential(b, start, end) {
      RedactionsDiffer(b[start..end]);
      assert stop > end;
      var at := LastAt(b, start, stop);
      assert at.Some? && end <= at.value;
      assert at.value == end;
    }
  }

  /** Nothing begins between a separator and the byte after it. */
  lemma {:induction false} NextIsFirst(b: seq<byte>, from: nat, i: nat)
    requires from <= i && SeparatorAt(b, i)
    ensures NextSeparator(b, from).Some? && NextSeparator(b, from).value <= i
    decreases |b| - from
  {
    if from < i && !SeparatorAt(b, from) {
      NextIsFirst(b, from + 1, i);
    }
  }

  lemma {:induction false} SpansFromAre(b: seq<byte>, from: nat, s: Span)
    ensures s in Spans(b, from) <==> s.start >= from + 3 && Credential(b, s.start, s.end)
    decreases |b| - from
  {
    hide Credential, SpanAt, Spans, NextSeparator;
    if Credential(b, s.start, s.end) {
      CredentialHasSeparator(b, s.start, s.end);
      if s.start >= from + 3 {
        NextIsFirst(b, from, s.start - 3);
      }
    }
    match NextSeparator(b, from)
    case None => NoSpans(b, from);
    case Some(sep) =>
      SpansStep(b, from);
      SpansFromAre(b, sep + 3, s);
      SpanIsCredential(b, sep, s.end);
      SpanStarts(b, sep);
      if Credential(b, s.start, s.end) && from + 3 <= s.start < sep + 6 {
        SeparatorsApart(b, sep, s.start - 3);
      }
  }

  lemma CredentialHasSeparator(b: seq<byte>, start: nat, end: nat)
    requires Credential(b, start, end)
    ensures start >= 3 && SeparatorAt(b, start - 3)
  {
  }

  lemma SpanStarts(b: seq<byte>, sep: nat)
    requires SeparatorAt(b, sep)
    ensures SpanAt(b, sep).Some? ==> SpanAt(b, sep).value.start == sep + 3
  {
  }

  lemma SeparatorsApart(b: seq<byte>, i: nat, j: nat)
    requires SeparatorAt(b, i) && SeparatorAt(b, j) && i <= j < i + 3
    ensures i == j
  {
  }

  /** The spans of a text are its credentials, all of them and nothing else. */
  lemma SpansAreCredentials(b: seq<byte>, start: nat, end: nat)
    ensures Span(start, end) in Spans(b, 0) <==> Credential(b, start, end)
  {
    SpansFromAre(b, 0, Span(start, end));
  }

  const SEPARATOR: seq<byte> := [58, 47, 47]

  /** A scheme with a letter, its separator, a userinfo and its `@`, whatever stands before and behind. */
  lemma WrittenCredential(pre: seq<byte>, scheme: seq<byte>, u: seq<byte>, rest: seq<byte>)
    requires (forall c :: c in scheme ==> InScheme(c)) && exists c :: c in scheme && IsAlpha(c)
    requires u != [] && (forall c :: c in u ==> !EndsUserinfo(c)) && u != REDACTED && u != REDACTED_PAIR
    requires NoAtAhead(rest, 0)
    ensures var start := |pre| + |scheme| + 3;
            Credential(pre + scheme + SEPARATOR + u + [AT_SIGN] + rest, start, start + |u|)
  {
    hide EndsUserinfo, InScheme, IsAlpha, REDACTED, REDACTED_PAIR;
    var b := pre + scheme + SEPARATOR + u + [AT_SIGN] + rest;
    var sep := |pre| + |scheme|;
    var start, end := sep + 3, sep + 3 + |u|;
    assert b[start..end] == u && b[end + 1..] == rest;
    var c :| c in scheme && IsAlpha(c);
    var k :| 0 <= k < |scheme| && scheme[k] == c;
    assert b[|pre| + k] == c;
    forall j | |pre| + k <= j < sep
      ensures InScheme(b[j])
    {
      assert b[j] == scheme[j - |pre|];
    }
    forall j | start <= j < end
      ensures !EndsUserinfo(b[j])
    {
      assert b[j] == u[j - start];
    }
    forall j | end + 1 <= j < |b| && b[j] == AT_SIGN
      ensures exists k :: end + 1 <= k < j && EndsUserinfo(b[k])
    {
      assert rest[j - end - 1] == b[j];
      var m :| 0 <= m < j - end - 1 && EndsUserinfo(rest[m]);
      assert b[end + 1 + m] == rest[m];
    }
  }
}
