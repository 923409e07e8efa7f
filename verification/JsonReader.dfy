/**
 An ordinary JSON reader (RFC 8259), to say of a masked document what a consumer sees: undo the escapes its
 depth put on it, read it, and find the same document with its leaves replaced.
 */
module JsonReader {
  import opened Bytes
  import opened Options
  import opened EscapedJson
  import opened Splices
  import opened SecretContainer
  import opened SecretDocument

  // ---- The reader ----

  function Skip(b: seq<byte>): (r: seq<byte>)
    ensures |r| <= |b|
  {
    if b != [] && IsSpace(b[0]) then Skip(b[1..]) else b
  }

  /** Length of the run of bytes at the front that a number may hold, or that a word may. */
  function NumberLen(b: seq<byte>): (n: nat)
    ensures n <= |b|
  {
    if b != [] && InNumber(b[0]) then 1 + NumberLen(b[1..]) else 0
  }

  function WordLen(b: seq<byte>): (n: nat)
    ensures n <= |b|
  {
    if b != [] && IsLetter(b[0]) then 1 + WordLen(b[1..]) else 0
  }

  /** A string's content up to the first quote no backslash takes, and what follows that quote. */
  function ReadText(b: seq<byte>): (r: Option<(seq<byte>, seq<byte>)>)
    ensures r.Some? ==> |r.value.1| < |b|
  {
    if b == [] then None
    else if b[0] == QUOTE then Some(([], b[1..]))
    else
      var n := if b[0] == BACKSLASH && |b| >= 2 then 2 else 1;
      match ReadText(b[n..])
      case None => None
      case Some((body, rest)) => Some((b[..n] + body, rest))
  }

  function ReadValue(b: seq<byte>): (r: Option<(Json, seq<byte>)>)
    ensures r.Some? ==> |r.value.1| < |b|
    decreases |b|, 0
  {
    var s := Skip(b);
    if s == [] then None
    else if s[0] == QUOTE then
      match ReadText(s[1..])
      case None => None
      case Some((body, rest)) => Some((Str(body), rest))
    else if StartsNumber(s[0]) then Some((Num(s[..1 + NumberLen(s[1..])]), s[1 + NumberLen(s[1..])..]))
    else if IsLetter(s[0]) then Some((Word(s[..1 + WordLen(s[1..])]), s[1 + WordLen(s[1..])..]))
    else if s[0] == LBRACKET then
      var u := Skip(s[1..]);
      if u != [] && u[0] == RBRACKET then Some((Arr([]), u[1..]))
      else
        match ReadItems(s[1..])
        case None => None
        case Some((items, rest)) => Some((Arr(items), rest))
    else if s[0] == LBRACE then
      var u := Skip(s[1..]);
      if u != [] && u[0] == RBRACE then Some((Obj([]), u[1..]))
      else
        match ReadMembers(s[1..])
        case None => None
        case Some((members, rest)) => Some((Obj(members), rest))
    else None
  }

  function ReadItems(b: seq<byte>): (r: Option<(seq<Json>, seq<byte>)>)
    ensures r.Some? ==> |r.value.1| < |b|
    decreases |b|, 1
  {
    match ReadValue(b)
    case None => None
    case Some((v, rest)) =>
      var u := Skip(rest);
      if u == [] then None
      else if u[0] == RBRACKET then Some(([v], u[1..]))
      else if u[0] != COMMA then None
      else
        match ReadItems(u[1..])
        case None => None
        case Some((vs, end)) => Some(([v] + vs, end))
  }

  function ReadMember(b: seq<byte>): (r: Option<(Member, seq<byte>)>)
    ensures r.Some? ==> |r.value.1| < |b|
    decreases |b|, 1
  {
    var s := Skip(b);
    if s == [] || s[0] != QUOTE then None
    else
      match ReadText(s[1..])
      case None => None
      case Some((key, rest)) =>
        var u := Skip(rest);
        if u == [] || u[0] != COLON then None
        else
          match ReadValue(u[1..])
          case None => None
          case Some((v, end)) => Some((Member(key, v), end))
  }

  function ReadMembers(b: seq<byte>): (r: Option<(seq<Member>, seq<byte>)>)
    ensures r.Some? ==> |r.value.1| < |b|
    decreases |b|, 2
  {
    match ReadMember(b)
    case None => None
    case Some((m, rest)) =>
      var u := Skip(rest);
      if u == [] then None
      else if u[0] == RBRACE then Some(([m], u[1..]))
      else if u[0] != COMMA then None
      else
        match ReadMembers(u[1..])
        case None => None
        case Some((ms, end)) => Some(([m] + ms, end))
  }

  // ---- Reading undoes printing, token by token ----

  lemma {:induction false} SkipGap(gap: seq<byte>, x: seq<byte>)
    requires AllSpace(gap) && (x != [] ==> !IsSpace(x[0]))
    ensures Skip(gap + x) == x
  {
    if gap == [] {
      assert gap + x == x;
    } else {
      assert (gap + x)[1..] == gap[1..] + x;
      SkipGap(gap[1..], x);
    }
  }

  lemma {:induction false} TextReads(body: seq<byte>, rest: seq<byte>)
    requires IsBody(body)
    ensures ReadText(body + [QUOTE] + rest) == Some((body, rest))
    decreases |body|
  {
    var b := body + [QUOTE] + rest;
    if body == [] {
      assert b[1..] == rest;
    } else {
      var n := if body[0] == BACKSLASH then 2 else 1;
      assert b[n..] == body[n..] + [QUOTE] + rest && b[..n] == body[..n];
      TextReads(body[n..], rest);
      assert body[..n] + body[n..] == body;
    }
  }

  /** What may follow a number or a word without running on from it. */
  predicate Ends(rest: seq<byte>) {
    rest == [] || (!InNumber(rest[0]) && !IsLetter(rest[0]))
  }

  lemma {:induction false} NumberReads(digits: seq<byte>, rest: seq<byte>)
    requires (forall c :: c in digits ==> InNumber(c)) && Ends(rest)
    ensures NumberLen(digits + rest) == |digits|
  {
    if digits == [] {
      assert digits + rest == rest;
    } else {
      assert (digits + rest)[1..] == digits[1..] + rest;
      NumberReads(digits[1..], rest);
    }
  }

  lemma {:induction false} WordReads(letters: seq<byte>, rest: seq<byte>)
    requires (forall c :: c in letters ==> IsLetter(c)) && Ends(rest)
    ensures WordLen(letters + rest) == |letters|
  {
    if letters == [] {
      assert letters + rest == rest;
    } else {
      assert (letters + rest)[1..] == letters[1..] + rest;
      WordReads(letters[1..], rest);
    }
  }

  lemma TextPrints(body: seq<byte>)
    ensures Print(1, Text(body)) == [QUOTE] + (body + [QUOTE])
  {
    ExpandOnce(Literal(body));
  }

  lemma GapsSplit(gaps: seq<seq<byte>>, n: nat)
    requires AllGaps(gaps) && n <= |gaps|
    ensures AllGaps(gaps[..n]) && AllGaps(gaps[n..])
  {
  }

  lemma GapAt(gaps: seq<seq<byte>>, i: nat)
    requires AllGaps(gaps) && i < |gaps|
    ensures AllSpace(gaps[i])
  {
  }

  /** A gap and a punctuation byte end whatever stands before them. */
  lemma GapEnds(gap: seq<byte>, c: byte, rest: seq<byte>)
    requires AllSpace(gap) && (c == COMMA || c == RBRACE || c == RBRACKET)
    ensures Ends(gap + ([c] + rest))
    ensures Skip(gap + ([c] + rest)) == [c] + rest
  {
    var b := gap + ([c] + rest);
    assert b[0] == if gap == [] then c else gap[0];
    SkipGap(gap, [c] + rest);
  }

  /** The first byte a value prints is neither white space nor a closing bracket. */
  lemma ValueStarts(j: Json, gaps: seq<seq<byte>>, rest: seq<byte>)
    requires WellFormed(j) && |gaps| == |Tokens(j)| && AllGaps(gaps)
    ensures var s := Skip(Render(1, Tokens(j), gaps) + rest); s != [] && s[0] != RBRACKET
  {
    var t, us := Tokens(j)[0], Tokens(j)[1..];
    assert Tokens(j) == [t] + us;
    RenderCons(1, t, us, gaps);
    var p := Print(1, t);
    var tail := Render(1, us, gaps[1..]);
    assert p != [] && !IsSpace(p[0]) && p[0] != RBRACKET by {
      TokenStarts(j);
    }
    Assoc(gaps[0], p + tail, rest);
    GapAt(gaps, 0);
    SkipGap(gaps[0], p + tail + rest);
  }

  lemma TokenStarts(j: Json)
    requires WellFormed(j)
    ensures var p := Print(1, Tokens(j)[0]); p != [] && !IsSpace(p[0]) && p[0] != RBRACKET
  {
    match j
    case Str(body) => TextPrints(body);
    case Num(digits) => assert StartsNumber(digits[0]);
    case Word(letters) => assert letters[0] in letters;
    case _ =>
  }

  lemma ScalarReads(j: Json, gap: seq<byte>, rest: seq<byte>)
    requires WellFormed(j) && !j.Arr? && !j.Obj? && AllSpace(gap) && Ends(rest)
    ensures ReadValue(gap + Print(1, Tokens(j)[0]) + rest) == Some((j, rest))
  {
    hide Ends, Skip, ReadText, NumberLen, WordLen;
    var p := Print(1, Tokens(j)[0]);
    TokenStarts(j);
    Assoc(gap, p, rest);
    SkipGap(gap, p + rest);
    match j {
      case Str(body) =>
        TextPrints(body);
        assert (p + rest)[1..] == body + [QUOTE] + rest;
        TextReads(body, rest);
      case Num(digits) =>
        assert (p + rest)[1..] == digits[1..] + rest;
        NumberReads(digits[1..], rest);
        assert (p + rest)[..|digits|] == digits && (p + rest)[|digits|..] == rest;
      case Word(letters) =>
        assert letters[0] in letters;
        assert (p + rest)[1..] == letters[1..] + rest;
        WordReads(letters[1..], rest);
        assert (p + rest)[..|letters|] == letters && (p + rest)[|letters|..] == rest;
    }
  }

  // ---- Whole documents ----

  lemma {:induction false} ValueReads(j: Json, gaps: seq<seq<byte>>, rest: seq<byte>)
    requires WellFormed(j) && |gaps| == |Tokens(j)| && AllGaps(gaps) && Ends(rest)
    ensures ReadValue(Render(1, Tokens(j), gaps) + rest) == Some((j, rest))
    decreases j, 0
  {
    match j
    case Arr(items) => ListReads(items, gaps, rest);
    case Obj(members) => ObjectReads(members, gaps, rest);
    case _ =>
      assert Render(1, Tokens(j), gaps) == gaps[0] + Print(1, Tokens(j)[0]) + [];
      GapAt(gaps, 0);
      ScalarReads(j, gaps[0], rest);
      assert gaps[0] + Print(1, Tokens(j)[0]) + [] == gaps[0] + Print(1, Tokens(j)[0]);
  }

  /** The bytes of a bracketed list of tokens: the opening byte, the tokens, a gap and the closing byte. */
  lemma BracketsPrint(open: byte, mid: seq<Token>, close: byte, gaps: seq<seq<byte>>, rest: seq<byte>)
    requires |gaps| == |mid| + 2
    ensures Render(1, [Open(open)] + mid + [Close(close)], gaps) + rest ==
            gaps[0] + ([open] + (Render(1, mid, gaps[1..][..|mid|]) + (gaps[|mid| + 1] + ([close] + rest))))
  {
    hide Render, Print;
    var inner, gap := gaps[1..], gaps[|mid| + 1];
    assert [Open(open)] + mid + [Close(close)] == [Open(open)] + (mid + [Close(close)]);
    RenderCons(1, Open(open), mid + [Close(close)], gaps);
    RenderConcat(1, mid, [Close(close)], inner);
    assert inner[|mid|..] == [gap];
    BracketPrints(open, close, gap);
    var body := Render(1, mid, inner[..|mid|]);
    Assoc(gaps[0], [open] + (body + (gap + [close])), rest);
    Assoc([open], body + (gap + [close]), rest);
    Assoc(body, gap + [close], rest);
    Assoc(gap, [close], rest);
  }

  lemma BracketPrints(open: byte, close: byte, gap: seq<byte>)
    ensures Print(1, Open(open)) == [open] && Render(1, [Close(close)], [gap]) == gap + [close]
  {
    assert Render(1, [Close(close)], [gap]) == gap + [close] + Render(1, [], []);
  }

  lemma {:induction false} ListReads(items: seq<Json>, gaps: seq<seq<byte>>, rest: seq<byte>)
    requires WellFormed(Arr(items)) && |gaps| == |Tokens(Arr(items))| && AllGaps(gaps)
    ensures ReadValue(Render(1, Tokens(Arr(items)), gaps) + rest) == Some((Arr(items), rest))
    decreases items, 2
  {
    hide Render, Skip, ReadItems, ReadText, NumberLen, WordLen, ItemTokens;
    var mid := ItemTokens(items);
    BracketsPrint(LBRACKET, mid, RBRACKET, gaps, rest);
    var tail := gaps[|mid| + 1] + ([RBRACKET] + rest);
    var body := Render(1, mid, gaps[1..][..|mid|]) + tail;
    GapAt(gaps, 0);
    GapAt(gaps, |mid| + 1);
    GapsSplit(gaps, 1);
    GapsSplit(gaps[1..], |mid|);
    SkipGap(gaps[0], [LBRACKET] + body);
    assert ([LBRACKET] + body)[1..] == body;
    GapEnds(gaps[|mid| + 1], RBRACKET, rest);
    if items == [] {
      NothingPrints(items, gaps[1..][..|mid|]);
      assert [] + tail == tail && ([RBRACKET] + rest)[1..] == rest;
    } else {
      ItemsStart(items, gaps[1..][..|mid|], tail);
      ItemsRead(items, gaps[1..][..|mid|], gaps[|mid| + 1], rest);
    }
  }

  lemma NothingPrints(items: seq<Json>, gaps: seq<seq<byte>>)
    requires items == [] && |gaps| == |ItemTokens(items)|
    ensures Render(1, ItemTokens(items), gaps) == []
  {
  }

  function AfterFirst(items: seq<Json>): seq<Token> {
    if |items| <= 1 then [] else [Comma] + ItemTokens(items[1..])
  }

  /** A list of items is its first and the rest, each with its own gaps. */
  lemma FirstItem(items: seq<Json>, gaps: seq<seq<byte>>)
    requires items != [] && |gaps| == |ItemTokens(items)| && AllGaps(gaps)
    ensures var n := |Tokens(items[0])|;
            && n <= |gaps| && |gaps[n..]| == |AfterFirst(items)| && AllGaps(gaps[..n]) && AllGaps(gaps[n..])
            && Render(1, ItemTokens(items), gaps)
               == Render(1, Tokens(items[0]), gaps[..n]) + Render(1, AfterFirst(items), gaps[n..])
  {
    hide Render;
    var n := |Tokens(items[0])|;
    assert ItemTokens(items) == Tokens(items[0]) + AfterFirst(items);
    RenderConcat(1, Tokens(items[0]), AfterFirst(items), gaps);
    GapsSplit(gaps, n);
  }

  lemma ItemsStart(items: seq<Json>, gaps: seq<seq<byte>>, rest: seq<byte>)
    requires items != [] && WellFormed(items[0]) && |gaps| == |ItemTokens(items)| && AllGaps(gaps)
    ensures var s := Skip(Render(1, ItemTokens(items), gaps) + rest); s != [] && s[0] != RBRACKET
  {
    hide Render, Skip, ItemTokens, Tokens;
    FirstItem(items, gaps);
    var n := |Tokens(items[0])|;
    Assoc(Render(1, Tokens(items[0]), gaps[..n]), Render(1, AfterFirst(items), gaps[n..]), rest);
    ValueStarts(items[0], gaps[..n], Render(1, AfterFirst(items), gaps[n..]) + rest);
  }

  lemma {:induction false} ItemsRead(items: seq<Json>, gaps: seq<seq<byte>>, gap: seq<byte>, rest: seq<byte>)
    requires items != [] && (forall i :: 0 <= i < |items| ==> WellFormed(items[i]))
    requires |gaps| == |ItemTokens(items)| && AllGaps(gaps) && AllSpace(gap)
    ensures ReadItems(Render(1, ItemTokens(items), gaps) + (gap + ([RBRACKET] + rest))) == Some((items, rest))
    decreases items, 1
  {
    hide Render, Skip, ItemTokens, Tokens, ReadValue, Ends;
    FirstItem(items, gaps);
    var n, close := |Tokens(items[0])|, gap + ([RBRACKET] + rest);
    var first, more := Render(1, Tokens(items[0]), gaps[..n]), Render(1, AfterFirst(items), gaps[n..]);
    Assoc(first, more, close);
    if |items| == 1 {
      assert more == [] by {
        NoTokens(AfterFirst(items), gaps[n..]);
      }
      assert [] + close == close;
      GapEnds(gap, RBRACKET, rest);
      assert ([RBRACKET] + rest)[1..] == rest;
      ValueReads(items[0], gaps[..n], close);
      assert items == [items[0]];
    } else {
      var others := gaps[n + 1..];
      assert gaps[n..][1..] == others && gaps[n..][0] == gaps[n];
      var tail := Render(1, ItemTokens(items[1..]), others);
      RenderCons(1, Comma, ItemTokens(items[1..]), gaps[n..]);
      GapsSplit(gaps, n + 1);
      GapAt(gaps, n);
      CommaThen(gaps[n], tail, close);
      GapEnds(gaps[n], COMMA, tail + close);
      assert ([COMMA] + (tail + close))[1..] == tail + close;
      ValueReads(items[0], gaps[..n], more + close);
      ItemsRead(items[1..], others, gap, rest);
      assert [items[0]] + items[1..] == items;
    }
  }

  lemma CommaThen(gap: seq<byte>, tail: seq<byte>, close: seq<byte>)
    ensures gap + (Print(1, Comma) + tail) + close == gap + ([COMMA] + (tail + close))
  {
    Assoc(gap, [COMMA] + tail, close);
    Assoc([COMMA], tail, close);
  }

  lemma NoTokens(ts: seq<Token>, gaps: seq<seq<byte>>)
    requires ts == [] && |gaps| == |ts|
    ensures Render(1, ts, gaps) == []
  {
  }

  lemma {:induction false} ObjectReads(members: seq<Member>, gaps: seq<seq<byte>>, rest: seq<byte>)
    requires WellFormed(Obj(members)) && |gaps| == |Tokens(Obj(members))| && AllGaps(gaps)
    ensures ReadValue(Render(1, Tokens(Obj(members)), gaps) + rest) == Some((Obj(members), rest))
    decreases members, 2
  {
    hide Render, Skip, ReadMembers, ReadText, NumberLen, WordLen, MemberTokens;
    var mid := MemberTokens(members);
    BracketsPrint(LBRACE, mid, RBRACE, gaps, rest);
    var tail := gaps[|mid| + 1] + ([RBRACE] + rest);
    var body := Render(1, mid, gaps[1..][..|mid|]) + tail;
    GapAt(gaps, 0);
    GapAt(gaps, |mid| + 1);
    GapsSplit(gaps, 1);
    GapsSplit(gaps[1..], |mid|);
    SkipGap(gaps[0], [LBRACE] + body);
    assert ([LBRACE] + body)[1..] == body;
    GapEnds(gaps[|mid| + 1], RBRACE, rest);
    if members == [] {
      NothingPrinted(members, gaps[1..][..|mid|]);
      assert [] + tail == tail && ([RBRACE] + rest)[1..] == rest;
    } else {
      MembersStart(members, gaps[1..][..|mid|], tail);
      MembersRead(members, gaps[1..][..|mid|], gaps[|mid| + 1], rest);
    }
  }

  lemma NothingPrinted(members: seq<Member>, gaps: seq<seq<byte>>)
    requires members == [] && |gaps| == |MemberTokens(members)|
    ensures Render(1, MemberTokens(members), gaps) == []
  {
  }

  function AfterFirstMember(members: seq<Member>): seq<Token> {
    if |members| <= 1 then [] else [Comma] + MemberTokens(members[1..])
  }

  /** What a member prints: its key, a colon, and what follows. */
  function MemberPrint(key: seq<byte>, gap: seq<byte>, colonGap: seq<byte>, rest: seq<byte>): seq<byte> {
    gap + ([QUOTE] + (key + [QUOTE] + (colonGap + ([COLON] + rest))))
  }

  lemma MemberPrintThen(key: seq<byte>, gap: seq<byte>, colonGap: seq<byte>, rest: seq<byte>, more: seq<byte>)
    ensures MemberPrint(key, gap, colonGap, rest) + more == MemberPrint(key, gap, colonGap, rest + more)
  {
    Assoc(gap, [QUOTE] + (key + [QUOTE] + (colonGap + ([COLON] + rest))), more);
    Assoc([QUOTE], key + [QUOTE] + (colonGap + ([COLON] + rest)), more);
    Assoc(key + [QUOTE], colonGap + ([COLON] + rest), more);
    Assoc(colonGap, [COLON] + rest, more);
    Assoc([COLON], rest, more);
  }

  lemma PairPrints(key: seq<byte>, us: seq<Token>, gaps: seq<seq<byte>>)
    requires |gaps| == |us| + 2
    ensures Render(1, [Text(key)] + ([Colon] + us), gaps)
         == MemberPrint(key, gaps[0], gaps[1], Render(1, us, gaps[2..]))
  {
    hide Render, Print;
    RenderCons(1, Text(key), [Colon] + us, gaps);
    RenderCons(1, Colon, us, gaps[1..]);
    assert gaps[1..][1..] == gaps[2..] && gaps[1..][0] == gaps[1];
    TextPrints(key);
    ColonPrints();
    var more := gaps[1] + ([COLON] + Render(1, us, gaps[2..]));
    Assoc([QUOTE], key + [QUOTE], more);
  }

  lemma ColonPrints()
    ensures Print(1, Colon) == [COLON]
  {
  }

  lemma MemberTokensAre(members: seq<Member>)
    requires members != []
    ensures MemberTokens(members)
         == [Text(members[0].key)] + ([Colon] + (Tokens(members[0].value) + AfterFirstMember(members)))
  {
    hide Tokens;
    var value, rest := Tokens(members[0].value), AfterFirstMember(members);
    assert MemberTokens(members) == [Text(members[0].key), Colon] + value + rest;
    Assoc([Text(members[0].key), Colon], value, rest);
    PairThen(Text(members[0].key), Colon, value + rest);
  }

  /** A list of members is its first key, its colon, its first value and the rest. */
  lemma FirstMemberPrints(members: seq<Member>, gaps: seq<seq<byte>>)
    requires members != [] && |gaps| == |MemberTokens(members)| && AllGaps(gaps)
    ensures var value, rest := Tokens(members[0].value), AfterFirstMember(members);
            var n := |value| + 2;
            && |gaps| == n + |rest| && AllGaps(gaps[2..n]) && AllGaps(gaps[n..])
            && Render(1, MemberTokens(members), gaps)
               == MemberPrint(members[0].key, gaps[0], gaps[1],
                              Render(1, value, gaps[2..n]) + Render(1, rest, gaps[n..]))
  {
    hide Render, Tokens, MemberTokens, MemberPrint, AfterFirstMember;
    var value, rest := Tokens(members[0].value), AfterFirstMember(members);
    var n := |value| + 2;
    MemberTokensAre(members);
    PairPrints(members[0].key, value + rest, gaps);
    RenderConcat(1, value, rest, gaps[2..]);
    assert gaps[2..][..|value|] == gaps[2..n] && gaps[2..][|value|..] == gaps[n..];
    GapsSplit(gaps, 2);
    GapsSplit(gaps[2..], |value|);
  }

  lemma MembersStart(members: seq<Member>, gaps: seq<seq<byte>>, rest: seq<byte>)
    requires members != [] && |gaps| == |MemberTokens(members)| && AllGaps(gaps)
    ensures var s := Skip(Render(1, MemberTokens(members), gaps) + rest); s != [] && s[0] != RBRACE
  {
    hide Render, Skip, MemberTokens, Tokens;
    FirstMemberPrints(members, gaps);
    var printed := Render(1, MemberTokens(members), gaps);
    var after := printed[|gaps[0]|..];
    assert printed == gaps[0] + after && after[0] == QUOTE;
    Assoc(gaps[0], after, rest);
    GapAt(gaps, 0);
    SkipGap(gaps[0], after + rest);
  }

  /** A member reads back when what follows its value ends it. */
  lemma MemberReads(m: Member, gap: seq<byte>, colonGap: seq<byte>, gaps: seq<seq<byte>>, rest: seq<byte>)
    requires IsBody(m.key) && WellFormed(m.value) && AllSpace(gap) && AllSpace(colonGap)
    requires |gaps| == |Tokens(m.value)| && AllGaps(gaps) && Ends(rest)
    ensures ReadMember(MemberPrint(m.key, gap, colonGap, Render(1, Tokens(m.value), gaps) + rest)) == Some((m, rest))
    decreases m, 1
  {
    hide Render, Skip, Tokens, ReadValue, ReadText, Ends, AllGaps;
    var value := Render(1, Tokens(m.value), gaps) + rest;
    var colon := [COLON] + value;
    var text := m.key + [QUOTE] + (colonGap + colon);
    SkipGap(gap, [QUOTE] + text);
    assert ([QUOTE] + text)[1..] == text && colon[1..] == value;
    TextReads(m.key, colonGap + colon);
    SkipGap(colonGap, colon);
    ValueReads(m.value, gaps, rest);
  }

  lemma {:induction false} MembersRead(members: seq<Member>, gaps: seq<seq<byte>>, gap: seq<byte>, rest: seq<byte>)
    requires members != []
    requires forall i :: 0 <= i < |members| ==> IsBody(members[i].key) && WellFormed(members[i].value)
    requires |gaps| == |MemberTokens(members)| && AllGaps(gaps) && AllSpace(gap)
    ensures ReadMembers(Render(1, MemberTokens(members), gaps) + (gap + ([RBRACE] + rest))) == Some((members, rest))
    decreases members, 1
  {
    hide Render, Skip, MemberTokens, Tokens, ReadMember, Ends, MemberPrint;
    FirstMemberPrints(members, gaps);
    var m, n, close := members[0], |Tokens(members[0].value)| + 2, gap + ([RBRACE] + rest);
    var value, more := Render(1, Tokens(m.value), gaps[2..n]), Render(1, AfterFirstMember(members), gaps[n..]);
    assert m in members;
    GapAt(gaps, 0);
    GapAt(gaps, 1);
    MemberPrintThen(m.key, gaps[0], gaps[1], value + more, close);
    Assoc(value, more, close);
    if |members| == 1 {
      assert more == [] by {
        NoTokens(AfterFirstMember(members), gaps[n..]);
      }
      assert [] + close == close;
      GapEnds(gap, RBRACE, rest);
      assert ([RBRACE] + rest)[1..] == rest;
      MemberReads(m, gaps[0], gaps[1], gaps[2..n], close);
      assert members == [members[0]];
    } else {
      var others := gaps[n + 1..];
      assert gaps[n..][1..] == others && gaps[n..][0] == gaps[n];
      var tail := Render(1, MemberTokens(members[1..]), others);
      RenderCons(1, Comma, MemberTokens(members[1..]), gaps[n..]);
      GapsSplit(gaps, n + 1);
      GapAt(gaps, n);
      CommaThen(gaps[n], tail, close);
      GapEnds(gaps[n], COMMA, tail + close);
      assert ([COMMA] + (tail + close))[1..] == tail + close;
      MemberReads(m, gaps[0], gaps[1], gaps[2..n], more + close);
      MembersRead(members[1..], others, gap, rest);
      assert [members[0]] + members[1..] == members;
    }
  }

  // ---- What a consumer of a masked document sees ----

  /** A document's own tokens hold no escaped break, so nesting its print nests each token. */
  predicate Breakless(ts: seq<Token>) {
    forall t :: t in ts ==> !t.Break? && TokenOk(t)
  }

  lemma PlainToken(h: nat, t: Token)
    requires h >= 1 && TokenOk(t) && !t.Break?
    ensures Expand(h, Print(1, t)) == Print(h, t)
  {
    hide Expand;
    match t
    case Text(body) => ExpandOnce(Literal(body));
    case Number(digits) => PlainExpands(h, digits);
    case Letters(letters) => PlainExpands(h, letters);
    case Open(c) => PlainExpands(h, [c]);
    case Close(c) => PlainExpands(h, [c]);
    case Colon => PlainExpands(h, [COLON]);
    case Comma => PlainExpands(h, [COMMA]);
  }

  lemma {:induction false} RenderNests(h: nat, ts: seq<Token>, gaps: seq<seq<byte>>)
    requires h >= 1 && |gaps| == |ts| && AllGaps(gaps) && Breakless(ts)
    ensures Expand(h, Render(1, ts, gaps)) == Render(h, ts, gaps)
  {
    hide Print;
    if ts != [] {
      assert ts[0] in ts;
      PlainToken(h, ts[0]);
      GapAt(gaps, 0);
      PlainExpands(h, gaps[0]);
      RenderNests(h, ts[1..], gaps[1..]);
      ExpandConcat(h, gaps[0] + Print(1, ts[0]), Render(1, ts[1..], gaps[1..]));
      ExpandConcat(h, gaps[0], Print(1, ts[0]));
    }
  }

  lemma {:induction false} OrderlyIsOk(prev: byte, ts: seq<Token>)
    requires Orderly(prev, ts)
    ensures forall t :: t in ts ==> TokenOk(t)
    decreases |ts|
  {
    hide TokenOk;
    if ts != [] {
      OrderlyIsOk(LastByte(ts[0]), ts[1..]);
    }
  }

  lemma {:induction false} TokensHaveNoBreak(j: Json)
    ensures forall t :: t in Tokens(j) ==> !t.Break?
    decreases j, 0
  {
    match j
    case Arr(items) => ItemsHaveNoBreak(items);
    case Obj(members) => MembersHaveNoBreak(members);
    case _ =>
  }

  lemma {:induction false} ItemsHaveNoBreak(items: seq<Json>)
    ensures forall t :: t in ItemTokens(items) ==> !t.Break?
    decreases items, 1
  {
    if items != [] {
      TokensHaveNoBreak(items[0]);
      ItemsHaveNoBreak(items[1..]);
    }
  }

  lemma {:induction false} MembersHaveNoBreak(members: seq<Member>)
    ensures forall t :: t in MemberTokens(members) ==> !t.Break?
    decreases members, 1
  {
    if members != [] {
      assert members[0] in members;
      TokensHaveNoBreak(members[0].value);
      MembersHaveNoBreak(members[1..]);
    }
  }

  /** A printed object or list, however deep, reads back once the escapes of its depth are undone. */
  lemma ContainerReads(n: nat, j: Json, gaps: seq<seq<byte>>)
    requires WellFormed(j) && (j.Arr? || j.Obj?) && |gaps| == |Tokens(j)| && AllGaps(gaps)
    ensures ReadValue(Unnest(n, Render(Pow2(n), Tokens(j), gaps))) == Some((j, []))
  {
    hide Render, Tokens, Orderly, ReadValue, WellFormed, Nest, Unnest, AllGaps, TokenOk;
    var ts := Tokens(j);
    ContainerIsOrderly(j);
    OrderlyIsOk(LBRACKET, ts);
    TokensHaveNoBreak(j);
    RenderNests(Pow2(n), ts, gaps);
    NestIsExpand(n, Render(1, ts, gaps));
    UnnestInverts(n, Render(1, ts, gaps));
    ValueReads(j, gaps, []);
    assert Render(1, ts, gaps) + [] == Render(1, ts, gaps);
  }

  lemma {:induction false} MaskIsWellFormed(j: Json)
    requires WellFormed(j)
    ensures WellFormed(Mask(j))
    decreases j
  {
    match j
    case Arr(items) =>
      forall i | 0 <= i < |items|
        ensures WellFormed(Mask(items[i]))
      {
        MaskIsWellFormed(items[i]);
      }
    case Obj(members) =>
      forall i | 0 <= i < |members|
        ensures WellFormed(Mask(members[i].value))
      {
        assert members[i] in members;
        MaskIsWellFormed(members[i].value);
      }
    case _ => assert IsBody(PLACEHOLDER);
  }

  /**
   A container under a secret name, printed `n` strings deep anywhere in a text, read before and after masking:
   the same keys, words and shape, and the placeholder for every number and every string that is not empty.
   */
  lemma MaskedContainerReadsBack(b: seq<byte>, at: nat, n: nat, j: Json, gaps: seq<seq<byte>>)
    requires WellFormed(j) && (j.Arr? || j.Obj?)
    requires |gaps| == |Tokens(j)| && AllGaps(gaps)
    requires var text := Render(Pow2(n), Tokens(j), gaps); at + |text| <= |b| && b[at..at + |text|] == text
    ensures var (hits, end) := Walk(b, at, 0, LBRACKET, QUOTE, Level(n));
            && at <= end <= |b| && InOrder(hits, at, end)
            && ReadValue(Unnest(n, b[at..end])) == Some((j, []))
            && ReadValue(Unnest(n, Splice(b, hits, at, end))) == Some((Mask(j), []))
  {
    hide Render, Tokens, Walk, Splice, Mask, ReadValue, WellFormed, Unnest, AllGaps, InOrder;
    ContainerIsMasked(b, at, n, j, gaps);
    ContainerReads(n, j, gaps);
    MaskIsWellFormed(j);
    MaskKeepsKind(j);
    ContainerReads(n, Mask(j), gaps);
  }

  lemma MaskKeepsKind(j: Json)
    requires j.Arr? || j.Obj?
    ensures Mask(j).Arr? || Mask(j).Obj?
  {
  }
}
