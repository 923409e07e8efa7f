/**
 The scan for values under secret names: `name=value` arguments, `"name": value` members, and whatever
 an ordinary argument carries percent-encoded inside it. Which names are secret stays a parameter.
 */
module NameScan {
  import opened Bytes
  import opened Options
  import opened EscapedJson
  import opened Splices
  import opened SecretContainer
  import opened Percent
  import Utf8

  const EQUALS: byte := 61
  const MAX_NAME_LEN := 128

  datatype Shape = UrlForm | JsonMember

  type Judge = (seq<byte>, Shape) -> bool

  /** What one position yields, and where the scan resumes when a value was replaced. */
  datatype Found = Found(hits: seq<Edit>, resume: Option<nat>)

  const NOTHING := Found([], None)

  predicate InText(hits: seq<Edit>, n: nat) {
    forall h :: h in hits ==> h.start < h.end <= n
  }

  // ----- `name=value` -----

  predicate IsNameByte(c: byte) {
    48 <= c <= 57 || 65 <= c <= 90 || 97 <= c <= 122 || c == 95 || c == 45 || c == 46 || c == LBRACKET || c == RBRACKET
    || c == PERCENT
  }

  /** White space, and `& # ; , " ' \ < > }`. */
  predicate IsValueEnd(c: byte) {
    IsSpace(c) || c == 38 || c == 35 || c == 59 || c == COMMA || c == QUOTE || c == APOSTROPHE || c == BACKSLASH
    || c == 60 || c == 62 || c == RBRACE
  }

  /** Back from `start` over the bytes of a name; none when the name is too long. */
  function NameStart(b: seq<byte>, eq: nat, start: nat): (s: Option<nat>)
    requires start <= eq <= |b|
    ensures s.Some? ==> s.value <= start
    decreases start
  {
    if start > 0 && IsNameByte(b[start - 1]) then
      if eq - (start - 1) > MAX_NAME_LEN then None else NameStart(b, eq, start - 1)
    else Some(start)
  }

  /** Where a name begins once the tail of a JSON escape in front of it is set aside. */
  function EscapeEnd(b: seq<byte>, start: nat, end: nat): (after: Option<nat>)
    requires start < end <= |b|
    ensures after.Some? ==> start < after.value < end
  {
    if start == 0 || b[start - 1] != BACKSLASH then None
    else if b[start] == 98 || b[start] == 102 || b[start] == 110 || b[start] == 114 || b[start] == 116 then
      if start + 1 < end then Some(start + 1) else None
    else if b[start] == 117 && end - start > 5
            && IsHex(b[start + 1]) && IsHex(b[start + 2]) && IsHex(b[start + 3]) && IsHex(b[start + 4]) then
      Some(start + 5)
    else None
  }

  /** A name after a backslash is read both ways, and either reading makes its value a secret. */
  predicate NamesSecret(b: seq<byte>, start: nat, eq: nat, judge: Judge)
    requires start < eq <= |b|
  {
    judge(b[start..eq], UrlForm)
    || (EscapeEnd(b, start, eq).Some? && judge(b[EscapeEnd(b, start, eq).value..eq], UrlForm))
  }

  /** A secret's value runs to a terminator; an ordinary one also stops at the next `=`. */
  function ValueEnd(b: seq<byte>, i: nat, secret: bool): (e: nat)
    requires i <= |b|
    ensures i <= e <= |b|
    decreases |b| - i
  {
    if i < |b| && !IsValueEnd(b[i]) && (secret || b[i] != EQUALS) then ValueEnd(b, i + 1, secret) else i
  }

  function FormAt(b: seq<byte>, eq: nat, judge: Judge): (f: Found)
    requires eq < |b|
    ensures InText(f.hits, |b|) && (f.resume.Some? ==> eq < f.resume.value <= |b|)
    decreases |b|, |b| - eq, 1
  {
    match NameStart(b, eq, eq)
    case None => NOTHING
    case Some(start) =>
      if start == eq then NOTHING
      else
        var secret := NamesSecret(b, start, eq, judge);
        var end := ValueEnd(b, eq + 1, secret);
        var value := b[eq + 1..end];
        if secret then
          if value == [] || value == PLACEHOLDER then NOTHING
          else Found([Edit(eq + 1, end, PLACEHOLDER)], Some(end))
        else if PERCENT in value then Found(EncodedAt(b, eq + 1, end, judge), None)
        else NOTHING
  }

  function Shift(hits: seq<Edit>, delta: nat): (r: seq<Edit>)
    ensures |r| == |hits|
  {
    if hits == [] then []
    else [Edit(delta + hits[0].start, delta + hits[0].end, hits[0].replacement)] + Shift(hits[1..], delta)
  }

  /** The hits of the decoded value, on the encoded bytes. A byte that is no text is read as a `?`. */
  function EncodedAt(b: seq<byte>, start: nat, end: nat, judge: Judge): (hits: seq<Edit>)
    requires start <= end <= |b|
    ensures InText(hits, |b|)
    decreases |b|, |b| - start, 0
  {
    var enc := b[start..end];
    var dec := Decode(enc);
    if |dec| == |enc| then []
    else
      Utf8.StandInKeepsOffsets(dec);
      var inner := ScanFrom(Utf8.StandIn(dec), 0, judge);
      MapBackInText(enc, inner);
      ShiftInText(MapBack(enc, inner), start, |enc|, |b|);
      Shift(MapBack(enc, inner), start)
  }

  lemma {:induction false} MapBackInText(e: seq<byte>, hits: seq<Edit>)
    requires InText(hits, |Decode(e)|)
    ensures InText(MapBack(e, hits), |e|)
    decreases |hits|
  {
    if hits != [] {
      OffsetIncreases(e, hits[0].start, hits[0].end);
      MapBackInText(e, hits[1..]);
    }
  }

  lemma {:induction false} ShiftInText(hits: seq<Edit>, delta: nat, n: nat, to: nat)
    requires InText(hits, n) && delta + n <= to
    ensures InText(Shift(hits, delta), to)
  {
    if hits != [] {
      assert hits[0] in hits;
      ShiftInText(hits[1..], delta, n, to);
    }
  }

  // ----- `"name": value` -----

  function BackOverSpace(b: seq<byte>, k: nat): (r: nat)
    requires k <= |b|
    ensures r <= k
  {
    if k > 0 && IsSpace(b[k - 1]) then BackOverSpace(b, k - 1) else k
  }

  /** Back from `p` to the byte after a quote or a backslash; none when the name is too long. */
  function NameOpen(b: seq<byte>, nameEnd: nat, p: nat, quote: byte): (r: Option<nat>)
    requires p <= nameEnd <= |b|
    ensures r.Some? ==> r.value <= p
    decreases p
  {
    if p > 0 && b[p - 1] != quote && b[p - 1] != BACKSLASH then
      if nameEnd - (p - 1) > MAX_NAME_LEN then None else NameOpen(b, nameEnd, p - 1, quote)
    else Some(p)
  }

  /** The member name that ends before `colon`: where it starts and ends, its quote, and its escape level. */
  datatype Member = Member(start: nat, end: nat, quote: byte, level: nat)

  function MemberBefore(b: seq<byte>, colon: nat): (m: Option<Member>)
    requires colon <= |b|
    ensures m.Some? ==> m.value.start < m.value.end <= colon
  {
    var k := BackOverSpace(b, colon);
    if k == 0 then None
    else
      var close := k - 1;
      var quote, level := b[close], RunLength(b[..close]);
      if (quote != QUOTE && quote != APOSTROPHE)
         || (level != 0 && level != 1 && level != 3 && level != 7) || (quote == APOSTROPHE && level != 0)
      then None
      else
        var nameEnd := close - level;
        match NameOpen(b, nameEnd, nameEnd, quote)
        case None => None
        case Some(p) =>
          if p == 0 || b[p - 1] != quote || p == nameEnd || RunLength(b[..p - 1]) != level then None
          else Some(Member(p, nameEnd, quote, level))
  }

  function JsonAt(b: seq<byte>, colon: nat, judge: Judge): (f: Found)
    requires colon < |b|
    ensures InText(f.hits, |b|) && (f.resume.Some? ==> colon < f.resume.value <= |b|)
  {
    match MemberBefore(b, colon)
    case None => NOTHING
    case Some(m) =>
      if !judge(b[m.start..m.end], JsonMember) then NOTHING
      else
        var v := SkipSpace(b, colon + 1);
        if v < |b| && (b[v] == LBRACE || b[v] == LBRACKET) then
          var (hits, end) := Walk(b, v, 0, LBRACKET, m.quote, m.level);
          WalkInText(b, v, 0, LBRACKET, m.quote, m.level);
          Found(hits, Some(end))
        else
          match ScalarAt(b, v, m.quote, m.level)
          case None => NOTHING
          case Some(s) => Found(PushValue(b, s, m.quote, m.level), Some(s.next))
  }

  lemma {:induction false} WalkInText(b: seq<byte>, i: nat, depth: nat, prev: byte, quote: byte, level: nat)
    requires i <= |b|
    ensures InText(Walk(b, i, depth, prev, quote, level).0, |b|)
    ensures i <= Walk(b, i, depth, prev, quote, level).1 <= |b|
    decreases |b| - i
  {
    hide ScalarAt, IsKey, Replacement;
    if i < |b| {
      var c := b[i];
      if c == LBRACE || c == LBRACKET {
        WalkInText(b, i + 1, depth + 1, c, quote, level);
      } else if c == RBRACE || c == RBRACKET {
        var left := if depth == 0 then 0 else depth - 1;
        WalkInText(b, i + 1, left, c, quote, level);
      } else if c == COLON || c == COMMA {
        WalkInText(b, i + 1, depth, c, quote, level);
      } else if IsSpace(c) || (StartsNumber(c) && !NumberMayFollow(prev)) {
        WalkInText(b, i + 1, depth, prev, quote, level);
      } else {
        match ScalarAt(b, i, quote, level) {
          case None => WalkInText(b, i + 1, depth, c, quote, level);
          case Some(s) => WalkInText(b, s.next, depth, QUOTE, quote, level);
        }
      }
    }
  }

  // ----- The scan -----

  function StepAt(b: seq<byte>, i: nat, judge: Judge): (f: Found)
    requires i < |b|
    ensures InText(f.hits, |b|) && (f.resume.Some? ==> i < f.resume.value <= |b|)
    decreases |b|, |b| - i, 2
  {
    if b[i] == EQUALS then FormAt(b, i, judge)
    else if b[i] == COLON then JsonAt(b, i, judge)
    else NOTHING
  }

  /** Past a replaced value: its bytes are masked whatever they hold. */
  function Next(i: nat, f: Found): nat {
    if f.resume.Some? && f.resume.value > i + 1 then f.resume.value else i + 1
  }

  function ScanFrom(b: seq<byte>, i: nat, judge: Judge): (hits: seq<Edit>)
    ensures InText(hits, |b|)
    decreases |b|, |b| - i, 3
  {
    if i >= |b| then []
    else
      var f := StepAt(b, i, judge);
      f.hits + ScanFrom(b, Next(i, f), judge)
  }

  // ----- The scan as it runs -----

  method Scan(b: seq<byte>, judge: Judge) returns (hits: seq<Edit>)
    ensures hits == ScanFrom(b, 0, judge)
    decreases |b|, |b|, 3
  {
    hide FormAt, JsonAt;
    hits := [];
    var i := 0;
    assert [] + ScanFrom(b, 0, judge) == ScanFrom(b, 0, judge);
    while i < |b|
      invariant 0 <= i <= |b|
      invariant ScanFrom(b, 0, judge) == hits + ScanFrom(b, i, judge)
      decreases |b| - i
    {
      var found := NOTHING;
      if b[i] == EQUALS {
        found := ScanForm(b, i, judge);
      } else if b[i] == COLON {
        found := ScanJson(b, i, judge);
      }
      ghost var f := StepAt(b, i, judge);
      assert found == f;
      Assoc(hits, f.hits, ScanFrom(b, Next(i, f), judge));
      hits := hits + found.hits;
      i := Next(i, found);
    }
    assert hits + [] == hits;
  }

  method ScanForm(b: seq<byte>, eq: nat, judge: Judge) returns (f: Found)
    requires eq < |b|
    ensures f == FormAt(b, eq, judge)
    decreases |b|, |b| - eq, 2
  {
    hide EncodedAt, NamesSecret, IsNameByte, IsValueEnd;
    var start := eq;
    while start > 0 && IsNameByte(b[start - 1])
      invariant 0 <= start <= eq
      invariant NameStart(b, eq, eq) == NameStart(b, eq, start)
    {
      start := start - 1;
      if eq - start > MAX_NAME_LEN {
        return NOTHING;
      }
    }
    if start == eq {
      return NOTHING;
    }
    var secret := NamesSecret(b, start, eq, judge);
    var end := eq + 1;
    while end < |b| && !IsValueEnd(b[end]) && (secret || b[end] != EQUALS)
      invariant eq + 1 <= end <= |b|
      invariant ValueEnd(b, eq + 1, secret) == ValueEnd(b, end, secret)
    {
      end := end + 1;
    }
    var value := b[eq + 1..end];
    if secret {
      if value == [] || value == PLACEHOLDER {
        return NOTHING;
      }
      return Found([Edit(eq + 1, end, PLACEHOLDER)], Some(end));
    }
    if PERCENT in value {
      var hits := ScanEncoded(b, eq + 1, end, judge);
      return Found(hits, None);
    }
    return NOTHING;
  }

  /** The decoded value is strictly shorter than the text it stands in, so the recursion ends. */
  method ScanEncoded(b: seq<byte>, start: nat, end: nat, judge: Judge) returns (hits: seq<Edit>)
    requires start <= end <= |b|
    ensures hits == EncodedAt(b, start, end, judge)
    decreases |b|, |b| - start, 1
  {
    hide Decode, Offset, MapBack, Shift, ScanFrom;
    var enc := b[start..end];
    var dec, offsets := DecodeMapped(enc);
    if |dec| == |enc| {
      return [];
    }
    Utf8.StandInKeepsOffsets(dec);
    var inner := Scan(Utf8.StandIn(dec), judge);
    hits := CarryBack(enc, offsets, inner, start);
  }

  /** Carries each hit through the map of a decoded value. */
  method CarryBack(enc: seq<byte>, offsets: seq<nat>, inner: seq<Edit>, start: nat) returns (hits: seq<Edit>)
    requires InText(inner, |Decode(enc)|) && |offsets| == |Decode(enc)| + 1
    requires forall k :: 0 <= k < |offsets| ==> offsets[k] == Offset(enc, k)
    ensures hits == Shift(MapBack(enc, inner), start)
  {
    hide Decode, Offset, MapBack, Shift;
    hits := [];
    ghost var rest := inner;
    assert [] + Shift(MapBack(enc, inner), start) == Shift(MapBack(enc, inner), start);
    for i := 0 to |inner|
      invariant rest == inner[i..] && InText(rest, |Decode(enc)|)
      invariant Shift(MapBack(enc, inner), start) == hits + Shift(MapBack(enc, rest), start)
    {
      var h := inner[i];
      assert h == rest[0] && h in rest && rest[1..] == inner[i + 1..];
      var edit := Edit(start + offsets[h.start], start + offsets[h.end], PLACEHOLDER);
      CarryOne(enc, rest, start);
      Assoc(hits, [edit], Shift(MapBack(enc, rest[1..]), start));
      hits := hits + [edit];
      rest := rest[1..];
    }
    CarryNone(enc, rest, start);
    assert hits + [] == hits;
  }

  lemma CarryNone(e: seq<byte>, hits: seq<Edit>, delta: nat)
    requires hits == []
    ensures Shift(MapBack(e, hits), delta) == []
  {
  }

  lemma CarryOne(e: seq<byte>, hits: seq<Edit>, delta: nat)
    requires hits != [] && InText(hits, |Decode(e)|)
    ensures hits[0] in hits && InText(hits[1..], |Decode(e)|)
    ensures Shift(MapBack(e, hits), delta)
      == [Edit(delta + Offset(e, hits[0].start), delta + Offset(e, hits[0].end), PLACEHOLDER)]
         + Shift(MapBack(e, hits[1..]), delta)
  {
    hide Decode, Offset;
    var m := MapBack(e, hits);
    assert m[1..] == MapBack(e, hits[1..]);
  }

  method ReadMember(b: seq<byte>, colon: nat) returns (m: Option<Member>)
    requires colon < |b|
    ensures m == MemberBefore(b, colon)
  {
    hide IsSpace, RunLength;
    var k: nat := colon;
    while k > 0 && IsSpace(b[k - 1])
      invariant k <= colon && BackOverSpace(b, colon) == BackOverSpace(b, k)
    {
      k := k - 1;
    }
    if k == 0 {
      return None;
    }
    var close := k - 1;
    var quote := b[close];
    if quote != QUOTE && quote != APOSTROPHE {
      return None;
    }
    var level := BackslashesBefore(b, close);
    if (level != 0 && level != 1 && level != 3 && level != 7) || (quote == APOSTROPHE && level != 0) {
      return None;
    }
    var nameEnd := close - level;
    var p: nat := nameEnd;
    while p > 0 && b[p - 1] != quote && b[p - 1] != BACKSLASH
      invariant p <= nameEnd && NameOpen(b, nameEnd, nameEnd, quote) == NameOpen(b, nameEnd, p, quote)
    {
      p := p - 1;
      if nameEnd - p > MAX_NAME_LEN {
        return None;
      }
    }
    if p == 0 || b[p - 1] != quote || p == nameEnd {
      return None;
    }
    var opening := BackslashesBefore(b, p - 1);
    return if opening == level then Some(Member(p, nameEnd, quote, level)) else None;
  }

  method ScanJson(b: seq<byte>, colon: nat, judge: Judge) returns (f: Found)
    requires colon < |b|
    ensures f == JsonAt(b, colon, judge)
  {
    hide Walk, ScalarAt, IsSpace, MemberBefore;
    var member := ReadMember(b, colon);
    if member.None? {
      return NOTHING;
    }
    var m := member.value;
    if !judge(b[m.start..m.end], JsonMember) {
      return NOTHING;
    }
    var v: nat := colon + 1;
    while v < |b| && IsSpace(b[v])
      invariant colon + 1 <= v <= |b| && SkipSpace(b, colon + 1) == SkipSpace(b, v)
    {
      v := v + 1;
    }
    if v < |b| && (b[v] == LBRACE || b[v] == LBRACKET) {
      var hits, end := MaskContainer(b, v, m.quote, m.level);
      return Found(hits, Some(end));
    }
    var scalar := ReadScalar(b, v, m.quote, m.level);
    match scalar {
      case None => return NOTHING;
      case Some(s) => return Found(PushValue(b, s, m.quote, m.level), Some(s.next));
    }
  }
}
