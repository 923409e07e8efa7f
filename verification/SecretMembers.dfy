/** A member `"name": value` as the name scan meets it: found by its colon, and masked when its name is secret. */
module SecretMembers {
  import opened Bytes
  import opened Options
  import opened EscapedJson
  import opened Splices
  import opened SecretContainer
  import opened SecretDocument
  import opened NameScan
  import opened ScanOrder

  // ---- The name before a colon ----

  /** A name between quotes that carry `level` backslashes each. */
  function Quoted(name: seq<byte>, q: byte, level: nat): seq<byte> {
    Backslashes(level) + [q] + (name + (Backslashes(level) + [q]))
  }

  /** A string a name may be: nothing escaped in it, and not the quote it stands between. */
  predicate PlainName(name: seq<byte>, q: byte) {
    forall c :: c in name ==> c != BACKSLASH && c != q
  }

  predicate KnownQuote(q: byte, level: nat) {
    (q == QUOTE && (level == 0 || level == 1 || level == 3 || level == 7)) || (q == APOSTROPHE && level == 0)
  }

  /** No backslash stands just before `at`. */
  predicate Unescaped(b: seq<byte>, at: nat) {
    at <= |b| && (at > 0 ==> b[at - 1] != BACKSLASH)
  }

  lemma UnescapedRun(b: seq<byte>, at: nat)
    requires Unescaped(b, at)
    ensures RunLength(b[..at]) == 0
  {
    if at > 0 {
      assert b[..at][at - 1] == b[at - 1];
    } else {
      assert b[..at] == [];
    }
  }

  lemma PiecesOfQuoted(b: seq<byte>, at: nat, name: seq<byte>, q: byte, level: nat)
    requires Has(b, at, Quoted(name, q, level))
    ensures var start := at + level + 1;
            var close := start + |name| + level;
            && close < |b| && b[close] == q && b[start - 1] == q && b[start..start + |name|] == name
            && (forall k :: at <= k < start - 1 ==> b[k] == BACKSLASH)
            && (forall k :: start + |name| <= k < close ==> b[k] == BACKSLASH)
  {
    hide Has;
    var start := at + level + 1;
    HasSplit(b, at, Backslashes(level) + [q], name + (Backslashes(level) + [q]));
    HasSplit(b, at, Backslashes(level), [q]);
    HasSplit(b, start, name, Backslashes(level) + [q]);
    HasSplit(b, start + |name|, Backslashes(level), [q]);
    HasSlice(b, at + level, [q]);
    HasSlice(b, start, name);
    HasSlice(b, start + |name| + level, [q]);
    BackslashesAt(b, at, level);
    BackslashesAt(b, start + |name|, level);
  }

  lemma PlainNameEnds(b: seq<byte>, start: nat, name: seq<byte>, q: byte)
    requires 0 < start && start + |name| <= |b| && b[start..start + |name|] == name && PlainName(name, q)
    requires b[start - 1] != BACKSLASH
    ensures Unescaped(b, start + |name|)
    ensures forall k :: start <= k < start + |name| ==> b[k] != q && b[k] != BACKSLASH
  {
    forall k | start <= k < start + |name|
      ensures b[k] != q && b[k] != BACKSLASH
    {
      assert b[k] == b[start..start + |name|][k - start] && name[k - start] in name;
    }
  }

  /** Where the pieces of a quoted name stand, and the runs of backslashes before its quotes. */
  lemma QuotedParts(b: seq<byte>, at: nat, name: seq<byte>, q: byte, level: nat)
    requires Has(b, at, Quoted(name, q, level)) && Unescaped(b, at) && PlainName(name, q) && q != BACKSLASH
    ensures var start := at + level + 1;
            var close := start + |name| + level;
            && close < |b| && b[close] == q && b[start - 1] == q && b[start..start + |name|] == name
            && RunLength(b[..start - 1]) == level && RunLength(b[..close]) == level
            && (forall k :: start <= k < start + |name| ==> b[k] != q && b[k] != BACKSLASH)
  {
    hide Has, RunLength, Quoted, PlainName, Unescaped, FindClose;
    var start := at + level + 1;
    PiecesOfQuoted(b, at, name, q, level);
    UnescapedRun(b, at);
    StepOverBackslashes(b, 0, 0, at, level);
    PlainNameEnds(b, start, name, q);
    UnescapedRun(b, start + |name|);
    StepOverBackslashes(b, 0, 0, start + |name|, level);
  }

  /** Going back over a name: to its opening quote when it is not too long, and nowhere otherwise. */
  lemma {:induction false} NameOpens(b: seq<byte>, start: nat, end: nat, p: nat, q: byte)
    requires 0 < start <= p <= end <= |b| && b[start - 1] == q
    requires forall j :: start <= j < end ==> b[j] != q && b[j] != BACKSLASH
    requires end - p <= MAX_NAME_LEN
    ensures NameOpen(b, end, p, q) == if end - start <= MAX_NAME_LEN then Some(start) else None
    decreases p
  {
    if p > start && end - (p - 1) <= MAX_NAME_LEN {
      NameOpens(b, start, end, p - 1, q);
    }
  }

  lemma {:induction false} BackOverGap(b: seq<byte>, k: nat, n: nat)
    requires k + n <= |b| && forall j :: k <= j < k + n ==> IsSpace(b[j])
    ensures BackOverSpace(b, k + n) == BackOverSpace(b, k)
    decreases n
  {
    if n > 0 {
      BackOverGap(b, k, n - 1);
    }
  }

  /** Before its colon a quoted name of 1 to 128 plain bytes is the member's name; any other plain one is none. */
  lemma MemberIsRead(b: seq<byte>, at: nat, name: seq<byte>, q: byte, level: nat, gap: seq<byte>)
    requires KnownQuote(q, level) && PlainName(name, q) && Unescaped(b, at) && AllSpace(gap)
    requires Has(b, at, Quoted(name, q, level)) && Has(b, at + |Quoted(name, q, level)|, gap)
    ensures var start := at + level + 1;
            var colon := at + |Quoted(name, q, level)| + |gap|;
            && start + |name| <= colon <= |b| && b[start..start + |name|] == name
            && MemberBefore(b, colon) ==
               (if 1 <= |name| <= MAX_NAME_LEN then Some(NameScan.Member.Member(start, start + |name|, q, level))
                else None)
  {
    hide Has, RunLength, NameOpen, BackOverSpace, MemberBefore, Unescaped, PlainName, AllSpace, IsSpace;
    var start := at + level + 1;
    var close := start + |name| + level;
    QuotedParts(b, at, name, q, level);
    SpaceAt(b, close + 1, gap);
    BackOverGap(b, close + 1, |gap|);
    QuoteIsNoSpace(b, close);
    NameOpens(b, start, start + |name|, start + |name|, q);
    MemberFromParts(b, close + 1 + |gap|, close, start, start + |name|, q, level);
  }

  lemma MemberFromParts(b: seq<byte>, colon: nat, close: nat, start: nat, end: nat, q: byte, level: nat)
    requires KnownQuote(q, level) && 0 < start <= end && end + level == close < colon <= |b|
    requires BackOverSpace(b, colon) == close + 1 && b[close] == q && b[start - 1] == q
    requires RunLength(b[..start - 1]) == level && RunLength(b[..close]) == level
    requires NameOpen(b, end, end, q) == if end - start <= MAX_NAME_LEN then Some(start) else None
    ensures MemberBefore(b, colon) ==
            (if 1 <= end - start <= MAX_NAME_LEN then Some(NameScan.Member.Member(start, end, q, level)) else None)
  {
    hide RunLength, NameOpen, BackOverSpace;
  }

  lemma QuoteIsNoSpace(b: seq<byte>, close: nat)
    requires close < |b| && (b[close] == QUOTE || b[close] == APOSTROPHE)
    ensures BackOverSpace(b, close + 1) == close + 1
  {
  }

  // ---- The value after it ----

  predicate SecretName(name: seq<byte>, judge: Judge) {
    1 <= |name| <= MAX_NAME_LEN && judge(name, JsonMember)
  }

  /** What a value's own bytes yield, and where they end. */
  function ValueFound(b: seq<byte>, v: nat, q: byte, level: nat): Found
    requires v <= |b|
  {
    if v < |b| && (b[v] == LBRACE || b[v] == LBRACKET) then
      var (hits, end) := Walk(b, v, 0, LBRACKET, q, level); Found(hits, Some(end))
    else
      match ScalarAt(b, v, q, level)
      case None => NOTHING
      case Some(s) => Found(PushValue(b, s, q, level), Some(s.next))
  }

  lemma ColonFinds(b: seq<byte>, at: nat, name: seq<byte>, q: byte, level: nat, gap: seq<byte>, judge: Judge)
    requires KnownQuote(q, level) && PlainName(name, q) && Unescaped(b, at) && AllSpace(gap)
    requires Has(b, at, Quoted(name, q, level)) && Has(b, at + |Quoted(name, q, level)|, gap)
    requires var colon := at + |Quoted(name, q, level)| + |gap|; colon < |b| && b[colon] == COLON
    ensures var colon := at + |Quoted(name, q, level)| + |gap|;
            StepAt(b, colon, judge) ==
            if SecretName(name, judge) then ValueFound(b, SkipSpace(b, colon + 1), q, level) else NOTHING
  {
    hide Has, MemberBefore, Walk, ScalarAt, PushValue, Quoted, IsSpace;
    MemberIsRead(b, at, name, q, level, gap);
  }

  lemma SkipOverGap(b: seq<byte>, i: nat, gap: seq<byte>)
    requires AllSpace(gap) && Has(b, i, gap) && i + |gap| < |b| && !IsSpace(b[i + |gap|])
    ensures SkipSpace(b, i) == i + |gap|
  {
    SpaceAt(b, i, gap);
    WalkOverSpace(b, i, |gap|, 0, COMMA, 0);
  }

  lemma {:induction false} NumberRunsTo(b: seq<byte>, i: nat, digits: seq<byte>)
    requires Has(b, i, digits) && (forall c :: c in digits ==> InNumber(c))
    requires i + |digits| < |b| ==> !InNumber(b[i + |digits|])
    ensures i + |digits| <= |b| && NumberEnd(b, i) == i + |digits|
    decreases |digits|
  {
    if digits != [] {
      assert digits[0] in digits;
      assert forall c :: c in digits[1..] ==> c in digits;
      NumberRunsTo(b, i + 1, digits[1..]);
    }
  }

  // ---- Each kind of value ----

  /** The value's hits, its leaves and nothing else: making them prints the value masked. */
  ghost predicate MasksTo(b: seq<byte>, found: Found, i: nat, end: nat, printed: seq<byte>) {
    && i <= end <= |b| && InOrder(found.hits, i, end) && Splice(b, found.hits, i, end) == printed
    && (found.resume == Some(end) || (found == NOTHING && printed == b[i..end]))
  }

  lemma TextIsMasked(b: seq<byte>, at: nat, h: nat, body: seq<byte>)
    requires h >= 1 && IsBody(body) && Has(b, at, Expand(h, Literal(body)))
    ensures at < |b| && !IsSpace(b[at]) && b[at] != LBRACE && b[at] != LBRACKET
    ensures MasksTo(b, ValueFound(b, at, QUOTE, h - 1), at, at + |Expand(h, Literal(body))|,
                    Print(h, MaskToken(Text(body), false)))
  {
    hide ScalarAt, Expand, Has, IsBody, Literal, Walk, InOrder, Splice;
    FirstByte(b, at, h, Text(body));
    LiteralIsRead(b, at, h, body);
    SpliceText(b, at, h, body, false);
    var s := Scalar(at + h, at + h + |Expand(h, body)|, at + |Expand(h, Literal(body))|, true);
    assert TokenHits(h, at, Text(body), false) == PushValue(b, s, QUOTE, h - 1);
  }

  lemma NumberIsMasked(b: seq<byte>, at: nat, h: nat, digits: seq<byte>)
    requires h >= 1 && IsNumber(digits) && Has(b, at, digits)
    requires at + |digits| < |b| ==> !InNumber(b[at + |digits|])
    ensures at < |b| && !IsSpace(b[at]) && b[at] != LBRACE && b[at] != LBRACKET
    ensures MasksTo(b, ValueFound(b, at, QUOTE, h - 1), at, at + |digits|, Print(h, Text(PLACEHOLDER)))
  {
    hide Has, Walk, InOrder, Splice, Print;
    assert forall c :: c in digits[1..] ==> c in digits;
    HasHead(b, at, digits);
    NumberRunsTo(b, at + 1, digits[1..]);
    HasSlice(b, at, digits);
    assert digits[0] != PLACEHOLDER[0];
    var s := Scalar(at, at + |digits|, at + |digits|, false);
    assert ScalarAt(b, at, QUOTE, h - 1) == Some(s);
    SpliceNumber(b, at, h, digits);
    assert PushValue(b, s, QUOTE, h - 1) == TokenHits(h, at, Number(digits), false);
  }

  lemma HasHead(b: seq<byte>, at: nat, x: seq<byte>)
    requires x != [] && Has(b, at, x)
    ensures at < |b| && b[at] == x[0] && Has(b, at + 1, x[1..])
  {
  }

  lemma WordIsKept(b: seq<byte>, at: nat, h: nat, letters: seq<byte>)
    requires h >= 1 && IsWord(letters) && Has(b, at, letters)
    ensures at < |b| && !IsSpace(b[at]) && b[at] != LBRACE && b[at] != LBRACKET
    ensures MasksTo(b, ValueFound(b, at, QUOTE, h - 1), at, at + |letters|, letters)
  {
    hide Has, Walk;
    HasHead(b, at, letters);
    HasSlice(b, at, letters);
    assert letters[0] in letters;
    assert ScalarAt(b, at, QUOTE, h - 1) == None by {
      if h > 1 {
        assert b[at] != BACKSLASH;
      }
    }
    SpliceNothing(b, at, at + |letters|);
  }

  /** A value of any kind, printed at depth `h` with any white space: its bytes become those of the masked value. */
  lemma ValueIsMasked(b: seq<byte>, i: nat, h: nat, j: Json, gaps: seq<seq<byte>>)
    requires h >= 1 && WellFormed(j) && |gaps| == |Tokens(j)| && AllGaps(gaps)
    requires Has(b, i, Render(h, Tokens(j), gaps))
    requires var end := i + |Render(h, Tokens(j), gaps)|; end < |b| ==> !InNumber(b[end])
    ensures var end := i + |Render(h, Tokens(j), gaps)|;
            && |gaps| == |Tokens(Mask(j))|
            && i <= SkipSpace(b, Min(i, |b|)) <= |b|
            && MasksTo(b, ValueFound(b, SkipSpace(b, Min(i, |b|)), QUOTE, h - 1), i, end,
                       Render(h, Tokens(Mask(j)), gaps))
  {
    hide Render, Tokens, Has, Print, MasksTo, ValueFound, Mask, TokenOk, MaskToken;
    ValueFits(b, i, h, j, gaps);
    MaskIsTokenwise(j);
    if j.Arr? || j.Obj? {
      ContainerIsWalked(b, i, h, j, gaps);
    } else {
      ScalarIsMasked(b, i, h, j, gaps);
    }
  }

  lemma ValueFits(b: seq<byte>, i: nat, h: nat, j: Json, gaps: seq<seq<byte>>)
    requires h >= 1 && |gaps| == |Tokens(j)| && Has(b, i, Render(h, Tokens(j), gaps))
    ensures i + |Render(h, Tokens(j), gaps)| <= |b|
  {
    hide Render, Tokens, Has;
    HasSlice(b, i, Render(h, Tokens(j), gaps));
  }

  lemma GapThen(b: seq<byte>, i: nat, gap: seq<byte>, at: nat, end: nat, found: Found, printed: seq<byte>)
    requires at == i + |gap| && Has(b, i, gap) && MasksTo(b, found, at, end, printed)
    ensures MasksTo(b, found, i, end, gap + printed)
  {
    hide Splice, InOrder, Has;
    HasSlice(b, i, gap);
    SpliceFrom(b, found.hits, i, at, end);
    assert b[i..at] + b[at..end] == b[i..end];
  }

  lemma ScalarIsMasked(b: seq<byte>, i: nat, h: nat, j: Json, gaps: seq<seq<byte>>)
    requires h >= 1 && WellFormed(j) && !j.Arr? && !j.Obj?
    requires |gaps| == |Tokens(j)| == |Tokens(Mask(j))| && AllGaps(gaps)
    requires Has(b, i, Render(h, Tokens(j), gaps))
    requires var end := i + |Render(h, Tokens(j), gaps)|; end < |b| ==> !InNumber(b[end])
    ensures var end := i + |Render(h, Tokens(j), gaps)|;
            && i <= |b|
            && MasksTo(b, ValueFound(b, SkipSpace(b, i), QUOTE, h - 1), i, end, Render(h, Tokens(Mask(j)), gaps))
  {
    hide Has, Print, MasksTo, ValueFound, Render, AllGaps, WellFormed, AllSpace, IsSpace, InNumber;
    var t, gap, masked := Tokens(j)[0], gaps[0], Tokens(Mask(j))[0];
    assert Tokens(j) == [t] && Tokens(Mask(j)) == [masked];
    OneTokenRenders(h, t, gaps);
    OneTokenRenders(h, masked, gaps);
    HasSplit(b, i, gap, Print(h, t));
    var at := i + |gap|;
    assert AllSpace(gap) by {
      FirstGap(gaps);
    }
    ScalarTokenMasked(b, at, h, j);
    SkipOverGap(b, i, gap);
    GapThen(b, i, gap, at, at + |Print(h, t)|, ValueFound(b, at, QUOTE, h - 1), Print(h, masked));
  }

  lemma FirstGap(gaps: seq<seq<byte>>)
    requires gaps != [] && AllGaps(gaps)
    ensures AllSpace(gaps[0])
  {
  }

  lemma ScalarTokenMasked(b: seq<byte>, at: nat, h: nat, j: Json)
    requires h >= 1 && WellFormed(j) && !j.Arr? && !j.Obj? && Has(b, at, Print(h, Tokens(j)[0]))
    requires var end := at + |Print(h, Tokens(j)[0])|; end < |b| ==> !InNumber(b[end])
    ensures at < |b| && !IsSpace(b[at])
    ensures MasksTo(b, ValueFound(b, at, QUOTE, h - 1), at, at + |Print(h, Tokens(j)[0])|, Print(h, Tokens(Mask(j))[0]))
  {
    hide Has, Print, MasksTo, ValueFound, MaskToken, Expand, Literal;
    match j {
      case Str(body) =>
        PrintsText(h, body);
        TextIsMasked(b, at, h, body);
        MaskedText(j, body);
      case Num(digits) =>
        PrintsPlain(h, j);
        NumberIsMasked(b, at, h, digits);
      case Word(letters) =>
        PrintsPlain(h, j);
        WordIsKept(b, at, h, letters);
    }
  }

  lemma MaskedText(j: Json, body: seq<byte>)
    requires j == Str(body)
    ensures Tokens(Mask(j)) == [MaskToken(Text(body), false)]
  {
  }

  lemma PrintsText(h: nat, body: seq<byte>)
    requires h >= 1
    ensures Print(h, Text(body)) == Expand(h, Literal(body))
  {
  }

  lemma PrintsPlain(h: nat, j: Json)
    requires h >= 1
    ensures j.Num? ==> Print(h, Tokens(j)[0]) == j.digits
    ensures j.Word? ==> Print(h, Tokens(j)[0]) == j.letters
  {
  }

  lemma OneTokenRenders(h: nat, t: Token, gaps: seq<seq<byte>>)
    requires h >= 1 && |gaps| == 1
    ensures Render(h, [t], gaps) == gaps[0] + Print(h, t)
  {
    hide Print;
    assert [t][1..] == [] && gaps[1..] == [];
    assert Render(h, [t], gaps) == gaps[0] + Print(h, t) + [];
  }

  lemma ContainerStarts(b: seq<byte>, i: nat, h: nat, j: Json, gaps: seq<seq<byte>>)
    requires h >= 1 && (j.Arr? || j.Obj?) && |gaps| == |Tokens(j)| && AllGaps(gaps)
    requires Has(b, i, Render(h, Tokens(j), gaps))
    ensures var at := i + |gaps[0]|;
            && at < |b| && (b[at] == LBRACE || b[at] == LBRACKET) && i <= |b| && SkipSpace(b, i) == at
            && Walk(b, i, 0, LBRACKET, QUOTE, h - 1) == Walk(b, at, 0, LBRACKET, QUOTE, h - 1)
  {
    hide Has, Walk;
    var ts, at := Tokens(j), i + |gaps[0]|;
    assert ts != [] && ts[0].Open? && (ts[0].c == LBRACE || ts[0].c == LBRACKET);
    hide Tokens, Render;
    RenderSplits(b, i, h, ts, gaps);
    HasHead(b, at, Print(h, ts[0]));
    assert AllSpace(gaps[0]);
    SpaceAt(b, i, gaps[0]);
    WalkOverSpace(b, i, |gaps[0]|, 0, LBRACKET, h - 1);
  }

  lemma ContainerIsWalked(b: seq<byte>, i: nat, h: nat, j: Json, gaps: seq<seq<byte>>)
    requires h >= 1 && WellFormed(j) && (j.Arr? || j.Obj?)
    requires |gaps| == |Tokens(j)| == |Tokens(Mask(j))| && AllGaps(gaps)
    requires Has(b, i, Render(h, Tokens(j), gaps))
    ensures var end := i + |Render(h, Tokens(j), gaps)|;
            && i <= |b|
            && MasksTo(b, ValueFound(b, SkipSpace(b, i), QUOTE, h - 1), i, end, Render(h, Tokens(Mask(j)), gaps))
  {
    hide Walk, Render, Tokens, Splice, Mask, Hits, Orderly, Legible, ClosesLast, MaskTokens, MaskSeen, Has, InOrder;
    var ts := Tokens(j);
    ContainerIsOrderly(j);
    OrderlyIsSeen(LBRACKET, ts);
    WalkTokens(b, i, h, ts, gaps, 0, LBRACKET);
    SpliceTokens(b, i, h, LBRACKET, ts, gaps);
    MaskIsTokenwise(j);
    ContainerStarts(b, i, h, j, gaps);
  }

  // ---- The scan at a member's colon ----

  /** The scan goes from `i` to `k` with just these hits on the way. */
  ghost predicate Yields(b: seq<byte>, i: nat, hits: seq<Edit>, k: nat, judge: Judge) {
    ScanFrom(b, i, judge) == hits + ScanFrom(b, k, judge)
  }

  lemma YieldsThen(b: seq<byte>, i: nat, one: seq<Edit>, k: nat, two: seq<Edit>, n: nat, judge: Judge)
    requires Yields(b, i, one, k, judge) && Yields(b, k, two, n, judge)
    ensures Yields(b, i, one + two, n, judge)
  {
    Assoc(one, two, ScanFrom(b, n, judge));
  }

  lemma YieldsNothing(b: seq<byte>, i: nat, k: nat, judge: Judge)
    requires ScanFrom(b, i, judge) == ScanFrom(b, k, judge)
    ensures Yields(b, i, [], k, judge)
  {
  }

  /** No `=` and no colon: nothing to stop at. */
  predicate Silent(s: seq<byte>) {
    EQUALS !in s && COLON !in s
  }

  lemma {:induction false} SilentScan(b: seq<byte>, i: nat, x: seq<byte>, judge: Judge)
    requires Has(b, i, x) && Silent(x)
    ensures Yields(b, i, [], i + |x|, judge)
    decreases |x|
  {
    hide ScanFrom, StepAt, Silent, Yields;
    if x == [] {
      YieldsNothing(b, i, i, judge);
    } else {
      HasHead(b, i, x);
      SilentHead(b, i, x, judge);
      NothingHere(b, i, judge);
      SilentScan(b, i + 1, x[1..], judge);
      YieldsNothing(b, i, i + 1, judge);
      YieldsThen(b, i, [], i + 1, [], i + |x|, judge);
    }
  }

  lemma SilentHead(b: seq<byte>, i: nat, x: seq<byte>, judge: Judge)
    requires i < |b| && x != [] && b[i] == x[0] && Silent(x)
    ensures StepAt(b, i, judge) == NOTHING && Silent(x[1..])
  {
    assert x[0] in x;
  }

  lemma StepYields(b: seq<byte>, i: nat, judge: Judge)
    requires i < |b|
    ensures Yields(b, i, StepAt(b, i, judge).hits, Next(i, StepAt(b, i, judge)), judge)
  {
    hide StepAt;
  }

  /** A word holds nothing the scan stops at, nor does the white space before it. */
  lemma WordIsSilent(h: nat, j: Json, gaps: seq<seq<byte>>)
    requires h >= 1 && j.Word? && WellFormed(j) && |gaps| == |Tokens(j)| && AllGaps(gaps)
    ensures Silent(Render(h, Tokens(j), gaps))
  {
    OneTokenRenders(h, Letters(j.letters), gaps);
    assert forall c :: c in j.letters ==> IsLetter(c);
    assert AllSpace(gaps[0]);
  }

  /**
   At the colon of a member with a plain name: when the name is secret the scan hits the value's leaves, and
   goes on right behind the value; when it is not, the colon yields nothing.
   */
  lemma MemberYields(b: seq<byte>, at: nat, n: nat, key: seq<byte>, gap: seq<byte>, j: Json, gaps: seq<seq<byte>>,
      judge: Judge) returns (hits: seq<Edit>)
    requires n <= 3 && PlainName(key, QUOTE) && WellFormed(j) && Unescaped(b, at)
    requires AllSpace(gap) && |gaps| == |Tokens(j)| && AllGaps(gaps)
    requires var h, colon := Pow2(n), at + |Expand(Pow2(n), Literal(key))| + |gap|;
      && Has(b, at, Expand(h, Literal(key))) && Has(b, at + |Expand(h, Literal(key))|, gap)
      && Has(b, colon, [COLON]) && Has(b, colon + 1, Render(h, Tokens(j), gaps))
      && var end := colon + 1 + |Render(h, Tokens(j), gaps)|; end < |b| ==> !InNumber(b[end])
    ensures var h, colon := Pow2(n), at + |Expand(Pow2(n), Literal(key))| + |gap|;
      var end := colon + 1 + |Render(h, Tokens(j), gaps)|;
      && |gaps| == |Tokens(Mask(j))| && end <= |b|
      && if SecretName(key, judge) then
           && Yields(b, colon, hits, end, judge) && InOrder(hits, colon + 1, end)
           && Splice(b, hits, colon + 1, end) == Render(h, Tokens(Mask(j)), gaps)
         else hits == [] && Yields(b, colon, hits, colon + 1, judge)
  {
    hide Has, Render, Tokens, Mask, Splice, InOrder, ScanFrom, Yields, StepAt, ValueFound, Expand, Literal, Pow2;
    var h, level := Pow2(n), Level(n);
    var colon := at + |Expand(h, Literal(key))| + |gap|;
    var end := colon + 1 + |Render(h, Tokens(j), gaps)|;
    KeyIsQuoted(n, key);
    HasHead(b, colon, [COLON]);
    ColonFinds(b, at, key, QUOTE, level, gap, judge);
    ValueIsMasked(b, colon + 1, h, j, gaps);
    StepYields(b, colon, judge);
    var f := StepAt(b, colon, judge);
    hits := f.hits;
    TokensNotEmpty(h, j, gaps);
    if SecretName(key, judge) && f == NOTHING {
      UnmaskedIsWord(b, colon + 1, h, j, gaps);
      WordIsSilent(h, j, gaps);
      SilentScan(b, colon + 1, Render(h, Tokens(j), gaps), judge);
      YieldsThen(b, colon, [], colon + 1, [], end, judge);
    }
  }

  lemma KeyIsQuoted(n: nat, key: seq<byte>)
    requires n <= 3 && PlainName(key, QUOTE)
    ensures Expand(Pow2(n), Literal(key)) == Quoted(key, QUOTE, Level(n)) && KnownQuote(QUOTE, Level(n))
    ensures Level(n) == Pow2(n) - 1
  {
    assert Pow2(1) == 2 && Pow2(2) == 4 && Pow2(3) == 8;
    ExpandLiteral(Pow2(n), key);
    PlainExpands(Pow2(n), key);
  }

  lemma TokensNotEmpty(h: nat, j: Json, gaps: seq<seq<byte>>)
    requires h >= 1 && WellFormed(j) && |gaps| == |Tokens(j)|
    ensures Render(h, Tokens(j), gaps) != []
  {
    var t := Tokens(j)[0];
    assert Print(h, t) != [] by {
      match j
      case Str(body) => ExpandLiteral(h, body);
      case _ =>
    }
  }

  /** Only a word is left alone without being passed over. */
  lemma UnmaskedIsWord(b: seq<byte>, i: nat, h: nat, j: Json, gaps: seq<seq<byte>>)
    requires h >= 1 && WellFormed(j) && |gaps| == |Tokens(j)| && AllGaps(gaps) && i <= |b|
    requires Has(b, i, Render(h, Tokens(j), gaps))
    requires ValueFound(b, SkipSpace(b, i), QUOTE, h - 1) == NOTHING
    ensures j.Word?
  {
    hide Has, Render, Walk;
    if j.Arr? || j.Obj? {
      ContainerStarts(b, i, h, j, gaps);
    } else if !j.Word? {
      var t := Tokens(j)[0];
      OneTokenRenders(h, t, gaps);
      HasSplit(b, i, gaps[0], Print(h, t));
      var at := i + |gaps[0]|;
      FirstByte(b, at, h, t);
      SkipOverGap(b, i, gaps[0]);
      if j.Str? {
        LiteralIsRead(b, at, h, j.body);
      } else {
        HasHead(b, at, j.digits);
      }
    }
  }
}
