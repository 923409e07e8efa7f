/** An argument `name=value` as it stands in a text: when it is masked, and what may be passed over. */
module SecretArguments {
  import opened Bytes
  import opened Options
  import opened EscapedJson
  import opened Splices
  import opened SecretContainer
  import opened SecretDocument
  import opened Percent
  import opened NameScan
  import opened SecretMembers
  import opened NestedArguments

  // ---- The name before an equals sign ----

  /** A whole name of 1 to 128 name bytes ends at `eq`. */
  predicate NameEndsAt(b: seq<byte>, name: seq<byte>, eq: nat) {
    && 0 < |name| <= MAX_NAME_LEN && |name| <= eq <= |b| && b[eq - |name|..eq] == name
    && (forall c :: c in name ==> IsNameByte(c))
    && (|name| < eq ==> !IsNameByte(b[eq - |name| - 1]))
  }

  /** What may be the rest of a JSON escape: one letter, or a `u` and four digits. */
  predicate IsEscapeRest(s: seq<byte>) {
    || (|s| == 1 && (s[0] == 98 || s[0] == 102 || s[0] == 110 || s[0] == 114 || s[0] == 116))
    || (|s| == 5 && s[0] == 117 && IsHex(s[1]) && IsHex(s[2]) && IsHex(s[3]) && IsHex(s[4]))
  }

  /** The name is a secret's as it stands, or, behind a backslash, without the rest of that escape. */
  ghost predicate IsSecretName(b: seq<byte>, name: seq<byte>, eq: nat, judge: Judge) {
    || judge(name, UrlForm)
    || (|name| < eq <= |b| && b[eq - |name| - 1] == BACKSLASH
        && exists k :: 0 < k < |name| && IsEscapeRest(name[..k]) && judge(name[k..], UrlForm))
  }

  lemma {:induction false} BackToStart(b: seq<byte>, eq: nat, start: nat, k: nat)
    requires start <= k <= eq <= |b| && eq - start <= MAX_NAME_LEN
    requires (forall j :: start <= j < k ==> IsNameByte(b[j])) && (start > 0 ==> !IsNameByte(b[start - 1]))
    ensures NameStart(b, eq, k) == Some(start)
    decreases k
  {
    if k > start {
      BackToStart(b, eq, start, k - 1);
    }
  }

  lemma {:induction false} StartIsFar(b: seq<byte>, eq: nat, k: nat)
    requires k <= eq <= |b| && eq - k <= MAX_NAME_LEN && NameStart(b, eq, k).Some?
    ensures var s := NameStart(b, eq, k).value;
      && s <= k && eq - s <= MAX_NAME_LEN
      && (forall j :: s <= j < k ==> IsNameByte(b[j])) && (s > 0 ==> !IsNameByte(b[s - 1]))
    decreases k
  {
    if k > 0 && IsNameByte(b[k - 1]) {
      StartIsFar(b, eq, k - 1);
    }
  }

  lemma NameIsFound(b: seq<byte>, name: seq<byte>, eq: nat)
    requires NameEndsAt(b, name, eq)
    ensures 0 < |name| <= eq <= |b| && NameStart(b, eq, eq) == Some(eq - |name|)
  {
    hide IsNameByte, NameStart;
    var start := eq - |name|;
    var stood := b[start..eq];
    assert forall j :: start <= j < eq ==> b[j] == stood[j - start] && stood[j - start] in stood;
    BackToStart(b, eq, start, eq);
  }

  lemma FoundIsName(b: seq<byte>, eq: nat)
    requires eq <= |b| && NameStart(b, eq, eq).Some? && NameStart(b, eq, eq).value < eq
    ensures NameEndsAt(b, b[NameStart(b, eq, eq).value..eq], eq)
  {
    hide IsNameByte;
    StartIsFar(b, eq, eq);
  }

  lemma BothReadings(b: seq<byte>, name: seq<byte>, eq: nat, judge: Judge)
    requires NameEndsAt(b, name, eq)
    ensures NamesSecret(b, eq - |name|, eq, judge) <==> IsSecretName(b, name, eq, judge)
  {
    hide IsNameByte, IsHex;
    var start := eq - |name|;
    assert forall k :: 0 <= k < |name| ==> b[start + k] == name[k];
    assert forall k :: 0 < k < |name| ==> b[start + k..eq] == name[k..];
    var after := EscapeEnd(b, start, eq);
    if after.Some? {
      assert IsEscapeRest(name[..after.value - start]);
    }
  }

  ghost predicate SecretBefore(b: seq<byte>, eq: nat, judge: Judge) {
    exists name: seq<byte> :: NameEndsAt(b, name, eq) && IsSecretName(b, name, eq, judge)
  }

  lemma SecretIsNamed(b: seq<byte>, eq: nat, judge: Judge)
    ensures SecretAt(b, eq, judge) <==> eq < |b| && b[eq] == EQUALS && SecretBefore(b, eq, judge)
  {
    hide NameEndsAt, IsSecretName, NamesSecret;
    if SecretAt(b, eq, judge) {
      var name := b[NameStart(b, eq, eq).value..eq];
      FoundIsName(b, eq);
      BothReadings(b, name, eq, judge);
    }
    if eq < |b| && SecretBefore(b, eq, judge) {
      var name: seq<byte> :| NameEndsAt(b, name, eq) && IsSecretName(b, name, eq, judge);
      NameIsFound(b, name, eq);
      BothReadings(b, name, eq, judge);
    }
  }

  // ---- The value after it ----

  /** A value stands whole at `from`: nothing in it ends one, and the byte after it does. */
  predicate ValueStands(b: seq<byte>, from: nat, value: seq<byte>) {
    && Has(b, from, value) && (forall c :: c in value ==> !IsValueEnd(c))
    && (from + |value| < |b| ==> IsValueEnd(b[from + |value|]))
  }

  lemma {:induction false} ValueRunsTo(b: seq<byte>, from: nat, value: seq<byte>)
    requires ValueStands(b, from, value)
    ensures from + |value| <= |b| && b[from..from + |value|] == value
    ensures ValueEnd(b, from, true) == from + |value|
    decreases |value|
  {
    hide IsValueEnd;
    HasSlice(b, from, value);
    if value != [] {
      assert value[0] in value && forall c :: c in value[1..] ==> c in value;
      ValueRunsTo(b, from + 1, value[1..]);
    }
  }

  /** At the equals sign of a secret argument the scan replaces the value, the whole of it, and goes on behind. */
  lemma ArgumentIsHit(b: seq<byte>, eq: nat, value: seq<byte>, judge: Judge)
    requires eq < |b| && b[eq] == EQUALS && SecretBefore(b, eq, judge) && ValueStands(b, eq + 1, value)
    ensures var end := eq + 1 + |value|;
      StepAt(b, eq, judge) ==
      if WorthHiding(value) then Found([Edit(eq + 1, end, PLACEHOLDER)], Some(end)) else NOTHING
  {
    hide SecretBefore, ValueStands, SecretAt, FormAt, JsonAt, ValueEnd;
    SecretIsNamed(b, eq, judge);
    ValueRunsTo(b, eq + 1, value);
    SecretFormAt(b, eq, judge);
  }

  /** An ordinary argument's value yields nothing, unless it has something to decode. */
  lemma OrdinaryIsKept(b: seq<byte>, eq: nat, value: seq<byte>, judge: Judge)
    requires eq < |b| && b[eq] == EQUALS && !SecretBefore(b, eq, judge) && ValueStands(b, eq + 1, value)
    requires PERCENT !in value
    ensures StepAt(b, eq, judge) == NOTHING
  {
    hide SecretBefore, ValueStands, EncodedAt, NamesSecret, ValueEnd;
    SecretIsNamed(b, eq, judge);
    ValueRunsTo(b, eq + 1, value);
    ShortValue(b, eq + 1);
    assert forall j :: eq + 1 <= j < eq + 1 + |value| ==> b[j] == value[j - eq - 1] && value[j - eq - 1] in value;
  }

  lemma {:induction false} ShortValue(b: seq<byte>, from: nat)
    requires from <= |b|
    ensures ValueEnd(b, from, false) <= ValueEnd(b, from, true)
    decreases |b| - from
  {
    hide IsValueEnd;
    if from < |b| && !IsValueEnd(b[from]) && b[from] != EQUALS {
      ShortValue(b, from + 1);
    }
  }

  // ---- What a scan may pass over ----

  /** A quoted member name that is a secret's, and white space, end at `colon`. */
  predicate MemberEndsAt(b: seq<byte>, colon: nat, at: nat, name: seq<byte>, q: byte, level: nat, gap: seq<byte>,
      judge: Judge)
  {
    && KnownQuote(q, level) && PlainName(name, q) && Unescaped(b, at) && AllSpace(gap) && SecretName(name, judge)
    && Has(b, at, Quoted(name, q, level)) && Has(b, at + |Quoted(name, q, level)|, gap)
    && colon == at + |Quoted(name, q, level)| + |gap| < |b| && b[colon] == COLON
  }

  ghost predicate SecretMemberAt(b: seq<byte>, colon: nat, judge: Judge) {
    exists at, name, q, level, gap :: MemberEndsAt(b, colon, at, name, q, level, gap, judge)
  }

  lemma {:induction false} RunIsBackslashes(b: seq<byte>, k: nat)
    requires k <= |b|
    ensures var n := RunLength(b[..k]); Has(b, k - n, Backslashes(n)) && Unescaped(b, k - n)
    decreases k
  {
    var s := b[..k];
    if k > 0 && b[k - 1] == BACKSLASH {
      RunIsBackslashes(b, k - 1);
      assert s[..k - 1] == b[..k - 1];
      var n := RunLength(b[..k - 1]);
      assert Backslashes(n + 1) == Backslashes(n) + [BACKSLASH];
      HasSplit(b, k - 1 - n, Backslashes(n), [BACKSLASH]);
    }
  }

  lemma {:induction false} SpaceBehind(b: seq<byte>, k: nat)
    requires k <= |b|
    ensures BackOverSpace(b, k) <= k && forall j :: BackOverSpace(b, k) <= j < k ==> IsSpace(b[j])
  {
    if k > 0 && IsSpace(b[k - 1]) {
      SpaceBehind(b, k - 1);
    }
  }

  lemma {:induction false} OpenIsPlain(b: seq<byte>, end: nat, p: nat, q: byte)
    requires p <= end <= |b| && end - p <= MAX_NAME_LEN && NameOpen(b, end, p, q).Some?
    ensures var s := NameOpen(b, end, p, q).value;
      s <= p && end - s <= MAX_NAME_LEN && forall j :: s <= j < p ==> b[j] != q && b[j] != BACKSLASH
    decreases p
  {
    if p > 0 && b[p - 1] != q && b[p - 1] != BACKSLASH {
      OpenIsPlain(b, end, p - 1, q);
    }
  }

  /** A colon yields something only behind a secret member's name. */
  lemma OnlySecretMembersYield(b: seq<byte>, colon: nat, judge: Judge)
    requires colon < |b| && b[colon] == COLON && StepAt(b, colon, judge) != NOTHING
    ensures SecretMemberAt(b, colon, judge)
  {
    hide RunLength, NameOpen, BackOverSpace, Walk, ScalarAt, PushValue, SkipSpace, Has, Quoted, IsSpace, MemberEndsAt;
    var m := MemberBefore(b, colon).value;
    var k := BackOverSpace(b, colon);
    var close := k - 1;
    var start, end, q, level := m.start, m.end, m.quote, m.level;
    SpaceBehind(b, colon);
    OpenIsPlain(b, end, end, q);
    RunIsBackslashes(b, close);
    RunIsBackslashes(b, start - 1);
    QuotedStands(b, start, end, q, level);
    HasSlice(b, k, b[k..colon]);
    MemberIsThere(b, colon, start, end, k, q, level, judge);
  }

  lemma QuotedStands(b: seq<byte>, start: nat, end: nat, q: byte, level: nat)
    requires level < start <= end && end + level < |b| && b[start - 1] == q && b[end + level] == q
    requires Has(b, start - 1 - level, Backslashes(level)) && Has(b, end, Backslashes(level))
    ensures Has(b, start - 1 - level, Quoted(b[start..end], q, level))
  {
    hide Has;
    var close, name := Backslashes(level) + [q], b[start..end];
    HasSlice(b, start - 1, [q]);
    HasSplit(b, start - 1 - level, Backslashes(level), [q]);
    HasSlice(b, end + level, [q]);
    HasSplit(b, end, Backslashes(level), [q]);
    HasSlice(b, start, name);
    HasSplit(b, start, name, close);
    HasSplit(b, start - 1 - level, close, name + close);
  }

  lemma MemberIsThere(b: seq<byte>, colon: nat, start: nat, end: nat, k: nat, q: byte, level: nat, judge: Judge)
    requires KnownQuote(q, level) && level < start < end && end - start <= MAX_NAME_LEN
    requires end + level + 1 == k <= colon < |b| && b[colon] == COLON && judge(b[start..end], JsonMember)
    requires forall j :: start <= j < end ==> b[j] != q && b[j] != BACKSLASH
    requires forall j :: k <= j < colon ==> IsSpace(b[j])
    requires Unescaped(b, start - 1 - level) && Has(b, start - 1 - level, Quoted(b[start..end], q, level))
    requires Has(b, k, b[k..colon])
    ensures SecretMemberAt(b, colon, judge)
  {
    hide Has, IsSpace, Quoted;
    var at, name, gap := start - 1 - level, b[start..end], b[k..colon];
    assert |Quoted(name, q, level)| == k - at by {
      QuotedLength(name, q, level);
    }
    assert MemberEndsAt(b, colon, at, name, q, level, gap, judge);
  }

  lemma QuotedLength(name: seq<byte>, q: byte, level: nat)
    ensures |Quoted(name, q, level)| == |name| + 2 * level + 2
  {
  }

  /** Every secret argument is replaced to its last byte, by its own hit or by one it lies in, unless the value of
      a secret member that began before it reaches past it. */
  lemma SecretArgumentsAreReplaced(b: seq<byte>, eq: nat, value: seq<byte>, judge: Judge)
    requires eq < |b| && b[eq] == EQUALS && SecretBefore(b, eq, judge)
    requires ValueStands(b, eq + 1, value) && WorthHiding(value)
    ensures
      || Replaced(ScanFrom(b, 0, judge), eq + 1, eq + 1 + |value|)
      || exists i :: 0 <= i < eq && SecretMemberAt(b, i, judge) && PassesOver(b, i, eq, judge)
  {
    hide SecretBefore, ValueStands, SecretAt, ScanFrom, ValueEnd, JsonAt, Replaced, SecretMemberAt;
    SecretIsNamed(b, eq, judge);
    ValueRunsTo(b, eq + 1, value);
    NoSecretArgumentSurvives(b, 0, eq, judge);
    if InsideMember(b, eq, judge) {
      var i :| 0 <= i < eq && i < |b| && b[i] == COLON
        && JsonAt(b, i, judge).resume.Some? && eq < JsonAt(b, i, judge).resume.value;
      OnlySecretMembersYield(b, i, judge);
      assert PassesOver(b, i, eq, judge);
    }
  }

  /** What stands at `i` is hit as a whole, and it ends behind `k`. */
  predicate PassesOver(b: seq<byte>, i: nat, k: nat, judge: Judge) {
    i < |b| && StepAt(b, i, judge).resume.Some? && k < StepAt(b, i, judge).resume.value
  }
}
