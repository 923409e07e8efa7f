/** How a message's body is framed, read off its headers as they are written (section 6.3 of RFC 9112). */
module Http1Framing {
  import opened Bytes
  import opened Options
  import opened Http1Message
  import opened Http1Machine
  import opened Http1Bodies

  // ----- Names in any case -----

  /** `c` is the character `lower`, or its capital. */
  predicate IsCaseOf(c: byte, lower: char) {
    lower < 128 as char && (c == lower as int || ('a' <= lower <= 'z' && c == lower as int - 32))
  }

  predicate SpelledAnyCase(s: seq<byte>, lower: string) {
    |s| == |lower| && forall i :: 0 <= i < |s| ==> IsCaseOf(s[i], lower[i])
  }

  predicate AllLower(s: string) {
    forall i :: 0 <= i < |s| ==> s[i] < 128 as char && !('A' <= s[i] <= 'Z')
  }

  lemma CaseOfByte(c: byte, lower: char)
    requires lower < 128 as char && !('A' <= lower <= 'Z')
    ensures IsCaseOf(c, lower) <==> Lower([c])[0] == lower as int % 256
  {
  }

  lemma LowerSpells(s: seq<byte>, lower: string)
    requires AllLower(lower)
    ensures Lower(s) == Ascii(lower) <==> SpelledAnyCase(s, lower)
  {
    if |s| == |lower| {
      forall i | 0 <= i < |s|
        ensures IsCaseOf(s[i], lower[i]) <==> Lower(s)[i] == Ascii(lower)[i]
      {
        CaseOfByte(s[i], lower[i]);
      }
      if Lower(s) == Ascii(lower) {
        assert forall i :: 0 <= i < |s| ==> Lower(s)[i] == Ascii(lower)[i];
      }
    }
  }

  predicate SpelledAt(s: seq<byte>, lower: string, i: nat) {
    i + |lower| <= |s| && SpelledAnyCase(s[i..i + |lower|], lower)
  }

  /** Somewhere in `s` stands `part`, in any case. */
  ghost predicate HoldsAnyCase(s: seq<byte>, part: string) {
    exists i: nat :: SpelledAt(s, part, i)
  }

  predicate StandsAt(s: seq<byte>, part: seq<byte>, i: nat) {
    i + |part| <= |s| && s[i..i + |part|] == part
  }

  lemma StandsInTail(s: seq<byte>, part: seq<byte>, i: nat)
    requires s != []
    ensures StandsAt(s[1..], part, i) <==> StandsAt(s, part, i + 1)
  {
    if i + |part| <= |s| - 1 {
      assert s[1..][i..i + |part|] == s[i + 1..i + 1 + |part|];
    }
  }

  lemma {:induction false} ContainsIsThere(s: seq<byte>, part: seq<byte>)
    ensures Contains(s, part) <==> exists i: nat :: StandsAt(s, part, i)
    decreases |s|
  {
    hide StandsAt;
    StandsFirst(s, part);
    if s == [] {
      NothingStands(part);
    } else {
      ContainsIsThere(s[1..], part);
      forall i: nat
        ensures StandsAt(s[1..], part, i) <==> StandsAt(s, part, i + 1)
      {
        StandsInTail(s, part, i);
      }
      if !(part <= s) {
        if i: nat :| StandsAt(s, part, i) {
          assert StandsAt(s[1..], part, i - 1);
        }
        if i: nat :| StandsAt(s[1..], part, i) {
          assert StandsAt(s, part, i + 1);
        }
      }
    }
  }

  lemma StandsFirst(s: seq<byte>, part: seq<byte>)
    ensures StandsAt(s, part, 0) <==> part <= s
  {
  }

  lemma NothingStands(part: seq<byte>)
    ensures forall i: nat :: StandsAt([], part, i) ==> i == 0
  {
  }

  lemma LowerAt(s: seq<byte>, part: string, i: nat)
    requires AllLower(part)
    ensures StandsAt(Lower(s), Ascii(part), i) <==> SpelledAt(s, part, i)
  {
    hide Lower, AllLower, SpelledAnyCase;
    if i + |part| <= |s| {
      LowerSlice(s, i, |part|);
      LowerSpells(s[i..i + |part|], part);
    }
  }

  lemma LowerSlice(s: seq<byte>, i: nat, n: nat)
    requires i + n <= |s|
    ensures Lower(s)[i..i + n] == Lower(s[i..i + n])
  {
  }

  lemma LowerContains(s: seq<byte>, part: string)
    requires AllLower(part)
    ensures Contains(Lower(s), Ascii(part)) <==> HoldsAnyCase(s, part)
  {
    hide StandsAt, SpelledAt, Lower;
    ContainsIsThere(Lower(s), Ascii(part));
    forall i: nat
      ensures StandsAt(Lower(s), Ascii(part), i) <==> SpelledAt(s, part, i)
    {
      LowerAt(s, part, i);
    }
  }

  // ----- Decimal numerals -----

  function Decimal(n: nat): (r: seq<byte>)
    ensures r != [] && forall c :: c in r ==> 48 <= c <= 57
  {
    if n < 10 then [48 + n] else Decimal(n / 10) + [48 + n % 10]
  }

  function Zeros(k: nat): (r: seq<byte>)
    ensures |r| == k && forall c :: c in r ==> c == 48
  {
    seq(k, _ => 48)
  }

  /** A numeral of `n`: an optional plus, any zeros, and its decimal digits. */
  function Numeral(plus: bool, zeros: nat, n: nat): seq<byte> {
    (if plus then [43] else []) + (Zeros(zeros) + Decimal(n))
  }

  lemma DigitsSnoc(s: seq<byte>, d: nat)
    requires d < 10
    ensures Digits(s + [48 + d], 10) == (match Digits(s, 10) case None => None case Some(n) => Some(10 * n + d))
  {
    assert (s + [48 + d])[..|s|] == s;
  }

  lemma {:induction false} ZerosRead(k: nat)
    ensures Digits(Zeros(k), 10) == Some(0)
  {
    if k > 0 {
      ZerosRead(k - 1);
      assert Zeros(k) == Zeros(k - 1) + [48 + 0];
      DigitsSnoc(Zeros(k - 1), 0);
    }
  }

  lemma {:induction false} DecimalReads(k: nat, n: nat)
    ensures Digits(Zeros(k) + Decimal(n), 10) == Some(n)
    decreases n
  {
    if n < 10 {
      ZerosRead(k);
      DigitsSnoc(Zeros(k), n);
    } else {
      DecimalReads(k, n / 10);
      DigitsSnoc(Zeros(k) + Decimal(n / 10), n % 10);
      assert Zeros(k) + Decimal(n) == Zeros(k) + Decimal(n / 10) + [48 + n % 10];
    }
  }

  /** Whatever reads as a number is a numeral of it. */
  lemma {:induction false} ReadsDecimal(s: seq<byte>, n: nat) returns (k: nat)
    requires s != [] && Digits(s, 10) == Some(n)
    ensures s == Zeros(k) + Decimal(n)
    decreases |s|
  {
    var front, d := s[..|s| - 1], DigitValue(s[|s| - 1]);
    assert s == front + [s[|s| - 1]] && d < 10 && s[|s| - 1] == 48 + d;
    if front == [] {
      k := 0;
      assert Zeros(0) == [] && s == [48 + d];
    } else {
      var m := Digits(front, 10).value;
      k := ReadsDecimal(front, m);
      if m == 0 {
        assert Zeros(k) + [48] == Zeros(k + 1);
        k := k + 1;
      } else {
        assert Decimal(n) == Decimal(m) + [48 + d];
      }
    }
  }

  lemma NumeralReads(plus: bool, zeros: nat, n: nat)
    requires n <= USIZE_MAX
    ensures ParseUsize(Numeral(plus, zeros, n), 10) == Some(n)
  {
    hide Decimal, Digits, Zeros;
    var s, digits := Numeral(plus, zeros, n), Zeros(zeros) + Decimal(n);
    DecimalReads(zeros, n);
    if plus {
      assert s[0] == 43 && s[1..] == digits;
    } else {
      assert s == digits && s[0] in digits;
    }
  }

  lemma ReadsNumeral(s: seq<byte>, n: nat) returns (plus: bool, zeros: nat)
    requires ParseUsize(s, 10) == Some(n)
    ensures s == Numeral(plus, zeros, n) && n <= USIZE_MAX
  {
    plus := s != [] && s[0] == 43;
    if plus {
      assert s == [43] + s[1..];
      zeros := ReadsDecimal(s[1..], n);
    } else {
      zeros := ReadsDecimal(s, n);
      assert [] + s == s;
    }
  }

  // ----- White space around a value -----

  predicate IsSpaceChar(u: seq<byte>) {
    (|u| == 1 && AsciiSpace(u[0])) || WideSpace(u)
  }

  /** A run of white-space characters. */
  predicate Blank(us: seq<seq<byte>>) {
    forall u :: u in us ==> IsSpaceChar(u)
  }

  predicate PlainEnds(s: seq<byte>) {
    s != [] && 33 <= s[0] < 128 && 33 <= s[|s| - 1] < 128
  }

  lemma SpaceStarts(u: seq<byte>, s: seq<byte>)
    requires IsSpaceChar(u)
    ensures SpaceAtStart(u + s) == |u| > 0
  {
    var b := u + s;
    assert b[..|u|] == u && b[0] == u[0];
    if |u| == 3 {
      assert b[..2][0] == u[0];
    }
  }

  lemma SpaceEnds(s: seq<byte>, u: seq<byte>)
    requires IsSpaceChar(u)
    ensures SpaceAtEnd(s + u) == |u| > 0
  {
    var b := s + u;
    assert b[|b| - |u|..] == u && b[|b| - 1] == u[|u| - 1];
    if |u| == 3 {
      assert b[|b| - 2..][0] == u[1] && b[|b| - 2..][1] == u[2];
    }
  }

  lemma {:induction false} LeadTrimmed(us: seq<seq<byte>>, s: seq<byte>)
    requires Blank(us) && s != [] && 33 <= s[0] < 128
    ensures TrimStart(Flatten(us) + s) == s
  {
    hide IsSpaceChar, SpaceAtStart;
    if us == [] {
      assert Flatten(us) + s == s;
      PlainStart(s);
    } else {
      var rest := Flatten(us[1..]) + s;
      Assoc(us[0], Flatten(us[1..]), s);
      assert us[0] in us;
      SpaceStarts(us[0], rest);
      assert (us[0] + rest)[|us[0]|..] == rest;
      LeadTrimmed(us[1..], s);
    }
  }

  lemma PlainStart(s: seq<byte>)
    requires s != [] && 33 <= s[0] < 128
    ensures SpaceAtStart(s) == 0
  {
    hide WideSpace;
    if |s| >= 2 {
      WideSpaceIsWide(s[..2]);
    }
    if |s| >= 3 {
      WideSpaceIsWide(s[..3]);
    }
  }

  lemma NarrowEnd(s: seq<byte>)
    requires s != [] && s[|s| - 1] < 128
    ensures !WideSpace(s)
  {
    hide WideSpace;
    WideSpaceIsWide(s);
  }

  lemma PlainEnd(s: seq<byte>)
    requires s != [] && 33 <= s[|s| - 1] < 128
    ensures SpaceAtEnd(s) == 0
  {
    hide WideSpace;
    var n := |s|;
    if n >= 2 {
      NarrowEnd(s[n - 2..]);
    }
    if n >= 3 {
      NarrowEnd(s[n - 3..]);
    }
  }

  lemma NothingFlat()
    ensures Flatten<byte>([]) == []
  {
  }

  lemma FlattenCons(u: seq<byte>, us: seq<seq<byte>>)
    ensures Flatten([u] + us) == u + Flatten(us)
  {
    assert ([u] + us)[1..] == us;
  }

  lemma FlattenSnoc(us: seq<seq<byte>>, u: seq<byte>)
    ensures Flatten(us + [u]) == Flatten(us) + u
  {
    if us == [] {
      assert us + [u] == [u] && [u][1..] == [];
      assert Flatten([u]) == u + [] && [] + u == u;
    } else {
      assert (us + [u])[1..] == us[1..] + [u];
      FlattenSnoc(us[1..], u);
      Assoc(us[0], Flatten(us[1..]), u);
    }
  }

  lemma {:induction false} TailTrimmed(s: seq<byte>, us: seq<seq<byte>>)
    requires Blank(us) && s != [] && 33 <= s[|s| - 1] < 128
    ensures TrimEnd(s + Flatten(us)) == s
    decreases |us|
  {
    hide IsSpaceChar, SpaceAtEnd;
    if us == [] {
      assert s + Flatten(us) == s;
      PlainEnd(s);
    } else {
      var front, u := us[..|us| - 1], us[|us| - 1];
      assert us == front + [u] && u in us;
      FlattenSnoc(front, u);
      Assoc(s, Flatten(front), u);
      SpaceEnds(s + Flatten(front), u);
      assert (s + Flatten(front) + u)[..|s + Flatten(front)|] == s + Flatten(front);
      TailTrimmed(s, front);
    }
  }

  lemma Trimmed(lead: seq<seq<byte>>, s: seq<byte>, tail: seq<seq<byte>>)
    requires Blank(lead) && Blank(tail) && PlainEnds(s)
    ensures Trim(Flatten(lead) + s + Flatten(tail)) == s
  {
    hide IsSpaceChar;
    Assoc(Flatten(lead), s, Flatten(tail));
    assert (s + Flatten(tail))[0] == s[0];
    LeadTrimmed(lead, s + Flatten(tail));
    TailTrimmed(s, tail);
  }

  lemma {:induction false} TrimStartSplits(v: seq<byte>) returns (lead: seq<seq<byte>>)
    ensures Blank(lead) && v == Flatten(lead) + TrimStart(v)
    decreases |v|
  {
    hide IsSpaceChar, SpaceAtStart, Flatten;
    NothingFlat();
    var n := SpaceAtStart(v);
    if n == 0 {
      lead := [];
      assert [] + v == v;
    } else {
      var more := TrimStartSplits(v[n..]);
      SpaceCharAtStart(v);
      lead := [v[..n]] + more;
      FlattenCons(v[..n], more);
      Assoc(v[..n], Flatten(more), TrimStart(v[n..]));
      assert v == v[..n] + v[n..];
    }
  }

  lemma SpaceCharAtStart(v: seq<byte>)
    requires SpaceAtStart(v) > 0
    ensures IsSpaceChar(v[..SpaceAtStart(v)])
  {
  }

  lemma SpaceCharAtEnd(v: seq<byte>)
    requires SpaceAtEnd(v) > 0
    ensures IsSpaceChar(v[|v| - SpaceAtEnd(v)..])
  {
  }

  lemma {:induction false} TrimEndSplits(v: seq<byte>) returns (tail: seq<seq<byte>>)
    ensures Blank(tail) && v == TrimEnd(v) + Flatten(tail)
    decreases |v|
  {
    hide IsSpaceChar, SpaceAtEnd;
    var n := SpaceAtEnd(v);
    if n == 0 {
      tail := [];
      assert v + [] == v;
    } else {
      var front, u := v[..|v| - n], v[|v| - n..];
      tail := TrimEndSplits(front);
      SpaceCharAtEnd(v);
      FlattenSnoc(tail, u);
      Assoc(TrimEnd(front), Flatten(tail), u);
      assert v == front + u;
      tail := tail + [u];
    }
  }

  // ----- What one header declares -----

  /** A content length of `n`: the name in any case, and a numeral of `n` that an address can hold, with any
      white space around it. */
  ghost predicate Declares(h: Header, n: nat) {
    && SpelledAnyCase(h.name, "content-length") && n <= USIZE_MAX
    && exists lead, plus, zeros, tail :: IsNumeralIn(h.value, lead, plus, zeros, n, tail)
  }

  predicate IsNumeralIn(v: seq<byte>, lead: seq<seq<byte>>, plus: bool, zeros: nat, n: nat, tail: seq<seq<byte>>) {
    Blank(lead) && Blank(tail) && v == Flatten(lead) + Numeral(plus, zeros, n) + Flatten(tail)
  }

  ghost predicate NamesChunked(h: Header) {
    SpelledAnyCase(h.name, "transfer-encoding") && HoldsAnyCase(h.value, "chunked")
  }

  lemma ChunkedIsNamed(h: Header)
    ensures DeclaresChunked(h) <==> NamesChunked(h)
  {
    LowerSpells(h.name, "transfer-encoding");
    LowerContains(h.value, "chunked");
  }

  lemma NumeralIsPlain(plus: bool, zeros: nat, n: nat)
    ensures PlainEnds(Numeral(plus, zeros, n))
  {
    var digits := Zeros(zeros) + Decimal(n);
    assert digits[0] in digits && digits[|digits| - 1] in digits;
  }

  lemma LengthIsDeclared(h: Header, n: nat)
    ensures DeclaredLength(h) == Some(n) <==> Declares(h, n)
  {
    hide Blank, Numeral, Trim, ParseUsize, PlainEnds;
    LowerSpells(h.name, "content-length");
    if Declares(h, n) {
      var lead, plus, zeros, tail :| IsNumeralIn(h.value, lead, plus, zeros, n, tail);
      NumeralIsPlain(plus, zeros, n);
      Trimmed(lead, Numeral(plus, zeros, n), tail);
      NumeralReads(plus, zeros, n);
    }
    if DeclaredLength(h) == Some(n) {
      var plus, zeros := ReadsNumeral(Trim(h.value), n);
      var lead := TrimStartSplits(h.value);
      var tail := TrimEndSplits(TrimStart(h.value));
      TrimIs(h.value);
      Assoc(Flatten(lead), Trim(h.value), Flatten(tail));
      assert IsNumeralIn(h.value, lead, plus, zeros, n, tail);
    }
  }

  lemma TrimIs(v: seq<byte>)
    ensures Trim(v) == TrimEnd(TrimStart(v))
  {
  }

  // ----- What the headers say together -----

  ghost predicate SaysChunked(hs: seq<Header>) {
    exists i :: 0 <= i < |hs| && NamesChunked(hs[i])
  }

  /** The first header that declares a length at all declares `n`. */
  ghost predicate SaysLength(hs: seq<Header>, n: nat) {
    exists i :: 0 <= i < |hs| && Declares(hs[i], n) && forall j, m: nat :: 0 <= j < i ==> !Declares(hs[j], m)
  }

  lemma {:induction false} FirstLengthIs(hs: seq<Header>, n: nat)
    ensures FirstLength(hs) == Some(n) <==> SaysLength(hs, n)
  {
    hide Declares, DeclaredLength;
    if hs != [] {
      FirstLengthIs(hs[1..], n);
      var first := DeclaredLength(hs[0]);
      forall m: nat
        ensures first == Some(m) <==> Declares(hs[0], m)
      {
        LengthIsDeclared(hs[0], m);
      }
      if first.Some? {
        assert Declares(hs[0], first.value);
      } else {
        SaysLengthLater(hs, n);
      }
    }
  }

  lemma SaysLengthLater(hs: seq<Header>, n: nat)
    requires hs != [] && forall m: nat :: !Declares(hs[0], m)
    ensures SaysLength(hs, n) <==> SaysLength(hs[1..], n)
  {
    hide Declares;
    var rest := hs[1..];
    assert forall j :: 0 <= j < |rest| ==> rest[j] == hs[j + 1];
    if SaysLength(hs, n) {
      var i :| 0 <= i < |hs| && Declares(hs[i], n) && forall j, m: nat :: 0 <= j < i ==> !Declares(hs[j], m);
      assert i > 0 && Declares(rest[i - 1], n);
    }
    if SaysLength(rest, n) {
      var i :| 0 <= i < |rest| && Declares(rest[i], n) && forall j, m: nat :: 0 <= j < i ==> !Declares(rest[j], m);
      forall j, m: nat | 0 <= j < i + 1
        ensures !Declares(hs[j], m)
      {
        if j > 0 {
          assert hs[j] == rest[j - 1];
        }
      }
      assert Declares(hs[i + 1], n);
    }
  }

  /** Chunked wins over any length; without it the first length declared counts; without that there is no framing. */
  lemma FramingIsRead(hs: seq<Header>)
    ensures BodyFraming(hs) == ChunkedBody <==> SaysChunked(hs)
    ensures forall n: nat :: BodyFraming(hs) == Length(n) <==> !SaysChunked(hs) && SaysLength(hs, n)
    ensures BodyFraming(hs) == Unframed <==> !SaysChunked(hs) && forall n: nat :: !SaysLength(hs, n)
  {
    hide NamesChunked, DeclaresChunked, SaysLength;
    forall i | 0 <= i < |hs|
      ensures DeclaresChunked(hs[i]) <==> NamesChunked(hs[i])
    {
      ChunkedIsNamed(hs[i]);
    }
    if h :| h in hs && DeclaresChunked(h) {
      var i :| 0 <= i < |hs| && hs[i] == h;
      assert NamesChunked(hs[i]);
    }
    if SaysChunked(hs) {
      var i :| 0 <= i < |hs| && NamesChunked(hs[i]);
      assert hs[i] in hs && DeclaresChunked(hs[i]);
    }
    forall n: nat
      ensures FirstLength(hs) == Some(n) <==> SaysLength(hs, n)
    {
      FirstLengthIs(hs, n);
    }
    if FirstLength(hs).Some? {
      assert SaysLength(hs, FirstLength(hs).value);
    }
  }

  // ----- Which messages have a body at all -----

  /** An interim response, one with no content, and one not modified have none, whatever their headers say. */
  predicate Bodiless(msg: Message) {
    !msg.isRequest && msg.status.Some?
    && (100 <= msg.status.value <= 199 || msg.status.value == 204 || msg.status.value == 304)
  }

  /** What a head leads to when the request it answers, if any, was neither HEAD nor CONNECT. */
  lemma HeadLeadsTo(env: Env, msg: Message)
    ensures Bodiless(msg) ==> AfterHead(env, Other, msg) == (Conf(Headers, Other), [msg])
    ensures !Bodiless(msg) && SaysChunked(msg.headers) ==>
              AfterHead(env, Other, msg) == (Conf(Chunked(msg, Size, env.capOf(msg.headers)), Other), [])
    ensures forall n: nat :: !Bodiless(msg) && !SaysChunked(msg.headers) && SaysLength(msg.headers, n) ==>
              AfterHead(env, Other, msg) == (Conf(Body(msg, n, env.capOf(msg.headers)), Other), [])
    ensures !Bodiless(msg) && !SaysChunked(msg.headers) && (forall n: nat :: !SaysLength(msg.headers, n)) ==>
              AfterHead(env, Other, msg) ==
              if msg.isRequest then (Conf(Headers, Other), [msg])
              else (Conf(UntilClose(msg, env.capOf(msg.headers)), Other), [])
  {
    hide SaysChunked, SaysLength, BodyFraming;
    FramingIsRead(msg.headers);
  }
}
