/**
 What masking a container does to the JSON document its bytes are: every string and number leaf becomes the
 placeholder, and the keys, the words, the shape and the layout stay.
 */
module SecretDocument {
  import opened Bytes
  import opened Options
  import opened EscapedJson
  import opened Splices
  import opened SecretContainer

  // ---- Documents and their tokens ----

  /** A JSON value. Strings and keys hold their literal's content, numbers and words their spelling. */
  datatype Json =
    | Str(body: seq<byte>)
    | Num(digits: seq<byte>)
    | Word(letters: seq<byte>)
    | Arr(items: seq<Json>)
    | Obj(members: seq<Member>)

  datatype Member = Member(key: seq<byte>, value: Json)

  datatype Token =
    | Open(c: byte)
    | Close(c: byte)
    | Colon
    | Comma
    | Text(body: seq<byte>)
    | Number(digits: seq<byte>)
    | Letters(letters: seq<byte>)
    // White space a nested document writes as an escape: `\n`, `\t` or `\r`, its backslash doubled by each nesting.
    | Break(run: nat, letter: byte)

  function Tokens(j: Json): seq<Token>
    decreases j, 0
  {
    match j
    case Str(body) => [Text(body)]
    case Num(digits) => [Number(digits)]
    case Word(letters) => [Letters(letters)]
    case Arr(items) => [Open(LBRACKET)] + ItemTokens(items) + [Close(RBRACKET)]
    case Obj(members) => [Open(LBRACE)] + MemberTokens(members) + [Close(RBRACE)]
  }

  function ItemTokens(items: seq<Json>): seq<Token>
    decreases items, 1
  {
    if items == [] then []
    else Tokens(items[0]) + (if |items| == 1 then [] else [Comma] + ItemTokens(items[1..]))
  }

  function MemberTokens(members: seq<Member>): seq<Token>
    decreases members, 1
  {
    if members == [] then []
    else
      [Text(members[0].key), Colon] + Tokens(members[0].value) +
      (if |members| == 1 then [] else [Comma] + MemberTokens(members[1..]))
  }

  /** The masked document: every non-empty string and every number is the placeholder; keys, words and shape stay. */
  function Mask(j: Json): Json
    decreases j
  {
    match j
    case Str(body) => if body == [] then j else Str(PLACEHOLDER)
    case Num(_) => Str(PLACEHOLDER)
    case Word(_) => j
    case Arr(items) => Arr(seq(|items|, i requires 0 <= i < |items| => Mask(items[i])))
    case Obj(members) =>
      Obj(seq(|members|, i requires 0 <= i < |members| => Member(members[i].key, Mask(members[i].value))))
  }

  predicate IsNumber(s: seq<byte>) {
    s != [] && StartsNumber(s[0]) && forall c :: c in s ==> InNumber(c)
  }

  /** A byte of a bare word such as `true`: nothing the walk gives a meaning to. */
  predicate IsLetter(c: byte) {
    97 <= c <= 122
  }

  predicate IsWord(s: seq<byte>) {
    s != [] && forall c :: c in s ==> IsLetter(c)
  }

  predicate WellFormed(j: Json)
    decreases j
  {
    match j
    case Str(body) => IsBody(body)
    case Num(digits) => IsNumber(digits)
    case Word(letters) => IsWord(letters)
    case Arr(items) => forall i :: 0 <= i < |items| ==> WellFormed(items[i])
    case Obj(members) => forall i :: 0 <= i < |members| ==> IsBody(members[i].key) && WellFormed(members[i].value)
  }

  // ---- Printing at an escape depth, with any whitespace between tokens ----

  function Print(h: nat, t: Token): seq<byte>
    requires h >= 1
  {
    match t
    case Open(c) => [c]
    case Close(c) => [c]
    case Colon => [COLON]
    case Comma => [COMMA]
    case Text(body) => Expand(h, Literal(body))
    case Number(digits) => digits
    case Letters(letters) => letters
    case Break(run, letter) => Backslashes(run) + [letter]
  }

  predicate AllSpace(s: seq<byte>) {
    forall i :: 0 <= i < |s| ==> IsSpace(s[i])
  }

  /** Each token after its own gap. */
  function Render(h: nat, ts: seq<Token>, gaps: seq<seq<byte>>): seq<byte>
    requires h >= 1 && |gaps| == |ts|
  {
    if ts == [] then [] else gaps[0] + Print(h, ts[0]) + Render(h, ts[1..], gaps[1..])
  }

  lemma {:induction false} RenderConcat(h: nat, ts: seq<Token>, us: seq<Token>, gaps: seq<seq<byte>>)
    requires h >= 1 && |gaps| == |ts| + |us|
    ensures Render(h, ts + us, gaps) == Render(h, ts, gaps[..|ts|]) + Render(h, us, gaps[|ts|..])
  {
    hide Print;
    if ts == [] {
      assert ts + us == us && gaps[0..] == gaps;
    } else {
      assert (ts + us)[1..] == ts[1..] + us;
      assert gaps[..|ts|][1..] == gaps[1..][..|ts| - 1] && gaps[1..][|ts| - 1..] == gaps[|ts|..];
      RenderConcat(h, ts[1..], us, gaps[1..]);
      Assoc(gaps[0] + Print(h, ts[0]), Render(h, ts[1..], gaps[..|ts|][1..]), Render(h, us, gaps[|ts|..]));
    }
  }

  lemma RenderCons(h: nat, t: Token, us: seq<Token>, gaps: seq<seq<byte>>)
    requires h >= 1 && |gaps| == 1 + |us|
    ensures Render(h, [t] + us, gaps) == gaps[0] + (Print(h, t) + Render(h, us, gaps[1..]))
  {
    hide Print;
    assert ([t] + us)[1..] == us;
    Assoc(gaps[0], Print(h, t), Render(h, us, gaps[1..]));
  }

  function MaskToken(t: Token, isKey: bool): Token {
    match t
    case Text(body) => if isKey || body == [] then t else Text(PLACEHOLDER)
    case Number(_) => Text(PLACEHOLDER)
    case _ => t
  }

  predicate KeyFirst(ts: seq<Token>) {
    |ts| > 1 && ts[1].Colon?
  }

  /** Masking read off the tokens alone: a string is a key exactly when a colon follows it. */
  function MaskTokens(ts: seq<Token>): (r: seq<Token>)
    ensures |r| == |ts|
  {
    if ts == [] then [] else [MaskToken(ts[0], KeyFirst(ts))] + MaskTokens(ts[1..])
  }

  /** A number is seen only where one may stand: right after `:`, `,` or `[`. */
  predicate Shown(prev: byte, t: Token) {
    t.Number? ==> NumberMayFollow(prev)
  }

  /** Masking as the walk reads the tokens, the byte `prev` before them included. */
  function MaskSeen(prev: byte, ts: seq<Token>): (r: seq<Token>)
    ensures |r| == |ts|
    decreases |ts|
  {
    if ts == [] then []
    else
      [if Shown(prev, ts[0]) then MaskToken(ts[0], KeyFirst(ts)) else ts[0]] + MaskSeen(LastByte(ts[0]), ts[1..])
  }

  // ---- What the walk needs of a token sequence ----

  function LastByte(t: Token): byte {
    match t
    case Open(c) => c
    case Close(c) => c
    case Colon => COLON
    case Comma => COMMA
    case Text(_) => QUOTE
    case Number(_) => QUOTE
    case Letters(letters) => if letters == [] then COMMA else letters[|letters| - 1]
    case Break(_, letter) => letter
  }

  predicate TokenOk(t: Token) {
    match t
    case Open(c) => c == LBRACE || c == LBRACKET
    case Close(c) => c == RBRACE || c == RBRACKET
    case Text(body) => IsBody(body)
    case Number(digits) => IsNumber(digits)
    case Letters(letters) => IsWord(letters)
    case Break(run, letter) => run >= 1 && (letter == 110 || letter == 114 || letter == 116)
    case _ => true
  }

  predicate EndsValue(t: Token) {
    t.Comma? || t.Close?
  }

  /** Numbers stand where JSON puts them: after `:`, `,` or `[`, and before `,` or a close. */
  predicate Orderly(prev: byte, ts: seq<Token>)
    decreases |ts|
  {
    ts == [] ||
    (&& TokenOk(ts[0])
     && (ts[0].Number? ==> NumberMayFollow(prev) && |ts| > 1 && EndsValue(ts[1]))
     && (ts[0].Text? ==> |ts| > 1)
     && Orderly(LastByte(ts[0]), ts[1..]))
  }

  /** What the walk needs to tell the tokens apart: a number ends before something no number holds. */
  predicate Legible(ts: seq<Token>)
    decreases |ts|
  {
    ts == [] ||
    (&& TokenOk(ts[0])
     && (ts[0].Number? ==> |ts| > 1 && (EndsValue(ts[1]) || ts[1].Break?))
     && (ts[0].Text? ==> |ts| > 1)
     && Legible(ts[1..]))
  }

  /** The container that is `depth` deep closes with the last token and not before. */
  predicate ClosesLast(depth: nat, ts: seq<Token>)
    decreases |ts|
  {
    if ts == [] then false
    else if ts[0].Open? then ClosesLast(depth + 1, ts[1..])
    else if ts[0].Close? then if depth <= 1 then |ts| == 1 else ClosesLast(depth - 1, ts[1..])
    else ClosesLast(depth, ts[1..])
  }

  // ---- The hits the walk finds, token by token ----

  function TokenHits(h: nat, at: nat, t: Token, isKey: bool): seq<Edit>
    requires h >= 1
  {
    match t
    case Text(body) =>
      var content := Expand(h, body);
      if isKey || content == [] || content == PLACEHOLDER then []
      else [Edit(at + h, at + h + |content|, PLACEHOLDER)]
    case Number(digits) => [Edit(at, at + |digits|, Replacement(false, QUOTE, h - 1))]
    case _ => []
  }

  function SeenHits(h: nat, at: nat, prev: byte, t: Token, isKey: bool): seq<Edit>
    requires h >= 1
  {
    if Shown(prev, t) then TokenHits(h, at, t, isKey) else []
  }

  function Hits(h: nat, i: nat, prev: byte, ts: seq<Token>, gaps: seq<seq<byte>>): seq<Edit>
    requires h >= 1 && |gaps| == |ts|
    decreases |ts|
  {
    if ts == [] then []
    else
      var at := i + |gaps[0]|;
      SeenHits(h, at, prev, ts[0], KeyFirst(ts))
      + Hits(h, at + |Print(h, ts[0])|, LastByte(ts[0]), ts[1..], gaps[1..])
  }

  lemma {:induction false} WalkOverSpace(b: seq<byte>, i: nat, n: nat, depth: nat, prev: byte, level: nat)
    requires i + n <= |b| && forall j :: i <= j < i + n ==> IsSpace(b[j])
    ensures Walk(b, i, depth, prev, QUOTE, level) == Walk(b, i + n, depth, prev, QUOTE, level)
    ensures SkipSpace(b, i) == SkipSpace(b, i + n)
    decreases n
  {
    if n > 0 {
      WalkOverSpace(b, i + 1, n - 1, depth, prev, level);
    }
  }

  lemma {:induction false} WalkOverLetters(b: seq<byte>, i: nat, letters: seq<byte>, depth: nat, prev: byte, level: nat)
    requires IsWord(letters) && Has(b, i, letters)
    ensures i + |letters| <= |b|
    ensures Walk(b, i, depth, prev, QUOTE, level) ==
            Walk(b, i + |letters|, depth, letters[|letters| - 1], QUOTE, level)
    decreases |letters|
  {
    assert letters[0] in letters;
    if level > 0 {
      assert b[i] != BACKSLASH;
    }
    assert !OpensAt(b, i, QUOTE, level);
    if |letters| > 1 {
      assert forall c :: c in letters[1..] ==> c in letters;
      WalkOverLetters(b, i + 1, letters[1..], depth, letters[0], level);
    }
  }

  lemma {:induction false} NumberEndsAfter(b: seq<byte>, i: nat, digits: seq<byte>)
    requires Has(b, i, digits) && (forall c :: c in digits ==> InNumber(c))
    requires i + |digits| < |b| && !InNumber(b[i + |digits|])
    ensures NumberEnd(b, i) == i + |digits|
    decreases |digits|
  {
    if digits != [] {
      assert digits[0] in digits;
      assert forall c :: c in digits[1..] ==> c in digits;
      NumberEndsAfter(b, i + 1, digits[1..]);
    }
  }

  lemma {:induction false} SpaceAt(b: seq<byte>, i: nat, gap: seq<byte>)
    requires AllSpace(gap) && Has(b, i, gap)
    ensures i + |gap| <= |b| && forall j :: i <= j < i + |gap| ==> IsSpace(b[j])
    decreases |gap|
  {
    if gap != [] {
      assert AllSpace(gap[1..]);
      SpaceAt(b, i + 1, gap[1..]);
    }
  }

  /** The first byte of a printed token says which kind it is. */
  lemma FirstByte(b: seq<byte>, at: nat, h: nat, t: Token)
    requires h >= 1 && TokenOk(t) && Has(b, at, Print(h, t))
    ensures at < |b| && !IsSpace(b[at])
    ensures b[at] == COLON <==> t.Colon?
    ensures EndsValue(t) || t.Break? ==> !InNumber(b[at])
    ensures t.Text? ==> b[at] == BACKSLASH || b[at] == QUOTE
  {
    match t
    case Text(body) =>
      var open := Backslashes(h - 1) + [QUOTE];
      ExpandLiteral(h, body);
      HasSplit(b, at, open, Expand(h, body) + open);
      QuoteAt(b, at, h);
    case Number(digits) =>
    case Letters(letters) =>
      assert letters[0] in letters;
    case Break(run, letter) =>
      BreakAt(b, at, run, letter);
    case _ =>
  }

  lemma BreakAt(b: seq<byte>, at: nat, run: nat, letter: byte)
    requires Has(b, at, Backslashes(run) + [letter])
    ensures at + run < |b| && b[at + run] == letter
    ensures forall j :: at <= j < at + run ==> b[j] == BACKSLASH
  {
    HasSplit(b, at, Backslashes(run), [letter]);
    BackslashesAt(b, at, run);
  }

  lemma RenderSplits(b: seq<byte>, i: nat, h: nat, ts: seq<Token>, gaps: seq<seq<byte>>)
    requires h >= 1 && ts != [] && |gaps| == |ts| && Has(b, i, Render(h, ts, gaps))
    ensures var at := i + |gaps[0]|;
            var next := at + |Print(h, ts[0])|;
            && Has(b, i, gaps[0]) && Has(b, at, Print(h, ts[0])) && Has(b, next, Render(h, ts[1..], gaps[1..]))
            && i + |Render(h, ts, gaps)| == next + |Render(h, ts[1..], gaps[1..])|
  {
    HasSplit(b, i, gaps[0] + Print(h, ts[0]), Render(h, ts[1..], gaps[1..]));
    HasSplit(b, i, gaps[0], Print(h, ts[0]));
  }

  predicate AllGaps(gaps: seq<seq<byte>>) {
    forall i :: 0 <= i < |gaps| ==> AllSpace(gaps[i])
  }

  lemma StartsInNumber(c: byte)
    ensures StartsNumber(c) ==> InNumber(c)
  {
  }

  lemma SpaceIsNoNumber(c: byte)
    requires IsSpace(c)
    ensures !InNumber(c)
  {
  }

  /** What the bytes after a token tell about the token that follows it. */
  lemma NextToken(b: seq<byte>, i: nat, h: nat, ts: seq<Token>, gaps: seq<seq<byte>>)
    requires h >= 1 && ts != [] && |gaps| == |ts| && Has(b, i, Render(h, ts, gaps))
    requires AllGaps(gaps) && TokenOk(ts[0])
    ensures i < |b| && (EndsValue(ts[0]) || ts[0].Break? ==> !InNumber(b[i]))
    ensures var k := SkipSpace(b, i); k < |b| && (b[k] == COLON <==> ts[0].Colon?)
    ensures EndsValue(ts[0]) || ts[0].Break? ==> !StartsNumber(b[SkipSpace(b, i)])
  {
    hide Has, Render, Print, TokenOk, AllSpace, EndsValue, Walk, InNumber, StartsNumber, IsSpace;
    RenderSplits(b, i, h, ts, gaps);
    assert AllSpace(gaps[0]);
    SpaceAt(b, i, gaps[0]);
    WalkOverSpace(b, i, |gaps[0]|, 0, COMMA, 0);
    FirstByte(b, i + |gaps[0]|, h, ts[0]);
    StartsInNumber(b[i + |gaps[0]|]);
    if gaps[0] != [] {
      assert IsSpace(b[i]);
      SpaceIsNoNumber(b[i]);
    }
  }

  lemma WalkText(b: seq<byte>, at: nat, h: nat, body: seq<byte>, isKey: bool, depth: nat, prev: byte)
    requires h >= 1 && IsBody(body) && Has(b, at, Expand(h, Literal(body)))
    requires var next := at + |Expand(h, Literal(body))|;
             next <= |b| ==> var k := SkipSpace(b, next); k < |b| && (b[k] == COLON <==> isKey)
    ensures var next := at + |Expand(h, Literal(body))|;
            && next <= |b|
            && Walked(Walk(b, at, depth, prev, QUOTE, h - 1), TokenHits(h, at, Text(body), isKey),
                      Walk(b, next, depth, QUOTE, QUOTE, h - 1))
  {
    hide ScalarAt, Expand, Has, IsBody, Literal, Walk;
    FirstByte(b, at, h, Text(body));
    LiteralIsRead(b, at, h, body);
    var s := Scalar(at + h, at + h + |Expand(h, body)|, at + |Expand(h, Literal(body))|, true);
    WalkScalar(b, at, depth, prev, h - 1, s);
    assert TokenHits(h, at, Text(body), isKey) == if isKey then [] else PushValue(b, s, QUOTE, h - 1);
  }

  lemma WalkScalar(b: seq<byte>, i: nat, depth: nat, prev: byte, level: nat, s: Scalar)
    requires i < |b| && ScalarAt(b, i, QUOTE, level) == Some(s)
    requires b[i] == BACKSLASH || b[i] == QUOTE || (StartsNumber(b[i]) && NumberMayFollow(prev))
    ensures Walk(b, i, depth, prev, QUOTE, level) ==
            var (more, end) := Walk(b, s.next, depth, QUOTE, QUOTE, level);
            ((if IsKey(b, s) then [] else PushValue(b, s, QUOTE, level)) + more, end)
  {
    hide ScalarAt, PushValue, IsKey;
  }

  lemma WalkNumber(b: seq<byte>, at: nat, digits: seq<byte>, depth: nat, prev: byte, h: nat)
    requires h >= 1 && IsNumber(digits) && Has(b, at, digits) && NumberMayFollow(prev)
    requires at + |digits| < |b| && !InNumber(b[at + |digits|])
    ensures var next := at + |digits|;
            && Walked(Walk(b, at, depth, prev, QUOTE, h - 1), TokenHits(h, at, Number(digits), false),
                      Walk(b, next, depth, QUOTE, QUOTE, h - 1))
  {
    assert forall c :: c in digits[1..] ==> c in digits;
    NumberEndsAfter(b, at + 1, digits[1..]);
    HasSlice(b, at, digits);
    assert digits[0] != PLACEHOLDER[0];
    var s := Scalar(at, at + |digits|, at + |digits|, false);
    assert ScalarAt(b, at, QUOTE, h - 1) == Some(s);
    assert PushValue(b, s, QUOTE, h - 1) == TokenHits(h, at, Number(digits), false);
    WalkScalar(b, at, depth, prev, h - 1, s);
  }

  function DepthAfter(t: Token, depth: nat): nat {
    if t.Open? then depth + 1 else if t.Close? && depth > 0 then depth - 1 else depth
  }

  lemma LegibleHead(ts: seq<Token>)
    requires ts != [] && Legible(ts)
    ensures TokenOk(ts[0]) && Legible(ts[1..])
    ensures ts[0].Number? ==> |ts| > 1 && (EndsValue(ts[1]) || ts[1].Break?)
    ensures ts[0].Text? ==> |ts| > 1
    ensures |ts| > 1 ==> TokenOk(ts[1])
  {
    if |ts| > 1 {
      assert ts[1..][0] == ts[1];
    }
  }

  /** What the walk does at a token, `rest` being what it does from the byte after it. */
  ghost predicate Walked(whole: (seq<Edit>, nat), hits: seq<Edit>, rest: (seq<Edit>, nat)) {
    whole == (hits + rest.0, rest.1)
  }

  lemma WalkPunctuation(b: seq<byte>, at: nat, h: nat, t: Token, depth: nat, prev: byte)
    requires h >= 1 && TokenOk(t) && (t.Open? || t.Close? || t.Colon? || t.Comma?) && Has(b, at, Print(h, t))
    ensures at + 1 <= |b| && |Print(h, t)| == 1
    ensures if t.Close? && depth <= 1 then Walk(b, at, depth, prev, QUOTE, h - 1) == ([], at + 1)
            else Walked(Walk(b, at, depth, prev, QUOTE, h - 1), [],
                        Walk(b, at + 1, DepthAfter(t, depth), LastByte(t), QUOTE, h - 1))
  {
    hide ScalarAt;
    if !(t.Close? && depth <= 1) {
      EmptyThen(Walk(b, at + 1, DepthAfter(t, depth), LastByte(t), QUOTE, h - 1).0);
    }
  }

  lemma WalkLetters(b: seq<byte>, at: nat, h: nat, letters: seq<byte>, depth: nat, prev: byte)
    requires h >= 1 && IsWord(letters) && Has(b, at, letters)
    ensures at + |letters| <= |b|
    ensures Walked(Walk(b, at, depth, prev, QUOTE, h - 1), [],
                   Walk(b, at + |letters|, depth, LastByte(Letters(letters)), QUOTE, h - 1))
  {
    WalkOverLetters(b, at, letters, depth, prev, h - 1);
    hide Walk, Has;
    EmptyThen(Walk(b, at + |letters|, depth, LastByte(Letters(letters)), QUOTE, h - 1).0);
  }

  /** The backslashes of an escaped break open nothing, and its letter is no value. */
  lemma {:induction false} WalkBackslashes(b: seq<byte>, i: nat, run: nat, depth: nat, prev: byte, level: nat)
    requires i + run < |b| && b[i + run] != BACKSLASH && b[i + run] != QUOTE
    requires forall j :: i <= j < i + run ==> b[j] == BACKSLASH
    ensures Walk(b, i, depth, prev, QUOTE, level)
      == Walk(b, i + run, depth, if run == 0 then prev else BACKSLASH, QUOTE, level)
    decreases run
  {
    if run > 0 {
      assert b[i] == BACKSLASH;
      assert !OpensAt(b, i, QUOTE, level) by {
        if level > run {
          assert b[i + run] != BACKSLASH;
        }
      }
      WalkBackslashes(b, i + 1, run - 1, depth, BACKSLASH, level);
    }
  }

  lemma WalkBreak(b: seq<byte>, at: nat, h: nat, run: nat, letter: byte, depth: nat, prev: byte)
    requires h >= 1 && TokenOk(Break(run, letter)) && Has(b, at, Print(h, Break(run, letter)))
    ensures at + run + 1 <= |b| && |Print(h, Break(run, letter))| == run + 1
    ensures Walked(Walk(b, at, depth, prev, QUOTE, h - 1), [], Walk(b, at + run + 1, depth, letter, QUOTE, h - 1))
  {
    hide Has;
    BreakAt(b, at, run, letter);
    WalkBackslashes(b, at, run, depth, prev, h - 1);
    var letters := [letter];
    assert IsWord(letters);
    assert Has(b, at + run, letters) by {
      HasOne(b, at + run);
    }
    WalkOverLetters(b, at + run, letters, depth, BACKSLASH, h - 1);
    EmptyThen(Walk(b, at + run + 1, depth, letter, QUOTE, h - 1).0);
  }

  lemma HasOne(b: seq<byte>, i: nat)
    requires i < |b|
    ensures Has(b, i, [b[i]])
  {
  }

  /** Where no number may stand, the walk passes over one, and no byte of it lets another follow. */
  lemma {:induction false} WalkHidden(b: seq<byte>, i: nat, digits: seq<byte>, depth: nat, prev: byte, level: nat)
    returns (last: byte)
    requires Has(b, i, digits) && (forall c :: c in digits ==> InNumber(c)) && !NumberMayFollow(prev)
    ensures i + |digits| <= |b| && !NumberMayFollow(last)
    ensures Walk(b, i, depth, prev, QUOTE, level) == Walk(b, i + |digits|, depth, last, QUOTE, level)
    decreases |digits|
  {
    last := prev;
    if digits != [] {
      assert digits[0] in digits && forall c :: c in digits[1..] ==> c in digits;
      if !StartsNumber(b[i]) {
        assert !OpensAt(b, i, QUOTE, level) by {
          if level > 0 {
            assert b[i] != BACKSLASH;
          }
        }
      }
      var next := if StartsNumber(b[i]) then prev else b[i];
      last := WalkHidden(b, i + 1, digits[1..], depth, next, level);
    }
  }

  /** What came before matters only to a number. */
  lemma {:induction false} WalkIgnoresPrev(b: seq<byte>, i: nat, depth: nat, p: byte, q: byte, level: nat)
    requires i <= |b| && (SkipSpace(b, i) < |b| ==> !StartsNumber(b[SkipSpace(b, i)]))
    ensures Walk(b, i, depth, p, QUOTE, level) == Walk(b, i, depth, q, QUOTE, level)
    decreases |b| - i
  {
    hide ScalarAt, IsKey, PushValue;
    if i < |b| && IsSpace(b[i]) {
      WalkIgnoresPrev(b, i + 1, depth, p, q, level);
    }
  }

  lemma WalkNumberEither(b: seq<byte>, at: nat, digits: seq<byte>, depth: nat, prev: byte, h: nat)
    requires h >= 1 && IsNumber(digits) && Has(b, at, digits)
    requires at + |digits| < |b| && !InNumber(b[at + |digits|])
    requires var k := SkipSpace(b, at + |digits|); k < |b| && !StartsNumber(b[k])
    ensures var next := at + |digits|;
            && Walked(Walk(b, at, depth, prev, QUOTE, h - 1), SeenHits(h, at, prev, Number(digits), false),
                      Walk(b, next, depth, QUOTE, QUOTE, h - 1))
  {
    hide Walk, Has;
    if NumberMayFollow(prev) {
      WalkNumber(b, at, digits, depth, prev, h);
    } else {
      var last := WalkHidden(b, at, digits, depth, prev, h - 1);
      WalkIgnoresPrev(b, at + |digits|, depth, last, QUOTE, h - 1);
      EmptyThen(Walk(b, at + |digits|, depth, QUOTE, QUOTE, h - 1).0);
    }
  }

  /** One token: its hits, then the walk from the byte after it, unless it closed the container. */
  lemma WalkToken(b: seq<byte>, at: nat, h: nat, ts: seq<Token>, gaps: seq<seq<byte>>, depth: nat, prev: byte)
    requires h >= 1 && ts != [] && |gaps| == |ts| && AllGaps(gaps) && Legible(ts)
    requires Has(b, at, Print(h, ts[0])) && Has(b, at + |Print(h, ts[0])|, Render(h, ts[1..], gaps[1..]))
    ensures var t := ts[0];
            var next := at + |Print(h, t)|;
            && next <= |b|
            && if t.Close? && depth <= 1 then Walk(b, at, depth, prev, QUOTE, h - 1) == ([], next)
               else Walked(Walk(b, at, depth, prev, QUOTE, h - 1), SeenHits(h, at, prev, t, KeyFirst(ts)),
                           Walk(b, next, DepthAfter(t, depth), LastByte(t), QUOTE, h - 1))
  {
    hide Walk, Has, Legible, Render, Expand, ScalarAt, SkipSpace, NumberMayFollow;
    var t := ts[0];
    LegibleHead(ts);
    if |ts| > 1 {
      assert forall j :: 0 <= j < |gaps[1..]| ==> gaps[1..][j] == gaps[j + 1];
      NextToken(b, at + |Print(h, t)|, h, ts[1..], gaps[1..]);
    }
    match t {
      case Text(body) => WalkText(b, at, h, body, KeyFirst(ts), depth, prev);
      case Number(digits) => WalkNumberEither(b, at, digits, depth, prev, h);
      case Letters(letters) => WalkLetters(b, at, h, letters, depth, prev);
      case Break(run, letter) => WalkBreak(b, at, h, run, letter, depth, prev);
      case _ => WalkPunctuation(b, at, h, t, depth, prev);
    }
  }

  lemma EmptyThen(hits: seq<Edit>)
    ensures [] + hits == hits
  {
  }

  /** From any token on, the walk finds exactly the hits the tokens call for and stops after the last of them. */
  lemma {:induction false} WalkTokens(b: seq<byte>, i: nat, h: nat, ts: seq<Token>, gaps: seq<seq<byte>>,
      depth: nat, prev: byte)
    requires h >= 1 && |gaps| == |ts| && AllGaps(gaps)
    requires Legible(ts) && ClosesLast(depth, ts)
    requires Has(b, i, Render(h, ts, gaps))
    ensures i <= |b|
    ensures Walk(b, i, depth, prev, QUOTE, h - 1) == (Hits(h, i, prev, ts, gaps), i + |Render(h, ts, gaps)|)
    decreases |ts|
  {
    hide Walk, Has, ScalarAt, Print, SeenHits;
    RenderSplits(b, i, h, ts, gaps);
    SpaceAt(b, i, gaps[0]);
    WalkOverSpace(b, i, |gaps[0]|, depth, prev, h - 1);
    var t, at := ts[0], i + |gaps[0]|;
    WalkToken(b, at, h, ts, gaps, depth, prev);
    if t.Close? && depth <= 1 {
      assert ts[1..] == [] && gaps[1..] == [];
      NothingAfterClose(h, at, prev, t);
      EmptyThen(Hits(h, at + |Print(h, t)|, LastByte(t), ts[1..], gaps[1..]));
    } else {
      assert forall j :: 0 <= j < |gaps[1..]| ==> gaps[1..][j] == gaps[j + 1];
      WalkTokens(b, at + |Print(h, t)|, h, ts[1..], gaps[1..], DepthAfter(t, depth), LastByte(t));
    }
  }

  lemma NothingAfterClose(h: nat, at: nat, prev: byte, t: Token)
    requires h >= 1 && t.Close?
    ensures SeenHits(h, at, prev, t, false) == []
  {
  }

  // ---- Applying the hits ----

  lemma {:induction false} PlainExpands(h: nat, s: seq<byte>)
    requires h >= 1 && forall c :: c in s ==> c != BACKSLASH && c != QUOTE
    ensures Expand(h, s) == s
  {
    if s != [] {
      assert s[0] in s;
      assert forall c :: c in s[1..] ==> c in s;
      PlainExpands(h, s[1..]);
    }
  }

  function QuoteAtDepth(h: nat): seq<byte>
    requires h >= 1
  {
    Backslashes(h - 1) + [QUOTE]
  }

  lemma LiteralParts(b: seq<byte>, at: nat, h: nat, body: seq<byte>)
    requires h >= 1 && Has(b, at, Expand(h, Literal(body)))
    ensures var content := Expand(h, body);
            var next := at + |Expand(h, Literal(body))|;
            && next == at + h + |content| + h <= |b|
            && b[at..at + h] == QuoteAtDepth(h)
            && b[at + h + |content|..next] == QuoteAtDepth(h)
            && b[at..next] == Expand(h, Literal(body))
  {
    hide Expand, Has, Literal, Backslashes;
    var quote, content := QuoteAtDepth(h), Expand(h, body);
    assert |quote| == h;
    ExpandLiteral(h, body);
    PartsOf(b, at, quote, content);
  }

  lemma PartsOf(b: seq<byte>, at: nat, quote: seq<byte>, content: seq<byte>)
    requires Has(b, at, quote + (content + quote))
    ensures var h, next := |quote|, at + |quote + (content + quote)|;
            && next == at + h + |content| + h <= |b|
            && b[at..at + h] == quote
            && b[at + h + |content|..next] == quote
            && b[at..next] == quote + (content + quote)
  {
    hide Has;
    HasSplit(b, at, quote, content + quote);
    HasSplit(b, at + |quote|, content, quote);
    HasSlice(b, at, quote);
    HasSlice(b, at + |quote| + |content|, quote);
    HasSlice(b, at, quote + (content + quote));
  }

  lemma PrintedPlaceholder(h: nat)
    requires h >= 1
    ensures Print(h, Text(PLACEHOLDER)) == QuoteAtDepth(h) + PLACEHOLDER + QuoteAtDepth(h)
    ensures Replacement(false, QUOTE, h - 1) == Print(h, Text(PLACEHOLDER))
  {
    PlainExpands(h, PLACEHOLDER);
    ExpandLiteral(h, PLACEHOLDER);
    hide Expand, Literal;
    Assoc(QuoteAtDepth(h), PLACEHOLDER, QuoteAtDepth(h));
    assert Replacement(false, QUOTE, h - 1) == QuoteAtDepth(h) + PLACEHOLDER + QuoteAtDepth(h);
  }

  lemma ExpandsToNothing(h: nat, body: seq<byte>)
    requires h >= 1
    ensures Expand(h, body) == [] <==> body == []
  {
  }

  /** A literal whose content is already the placeholder prints like one. */
  lemma AlreadyPlaceholder(h: nat, body: seq<byte>)
    requires h >= 1 && Expand(h, body) == PLACEHOLDER
    ensures Print(h, Text(body)) == Print(h, Text(PLACEHOLDER))
  {
    PlainExpands(h, PLACEHOLDER);
    ExpandLiteral(h, PLACEHOLDER);
    ExpandLiteral(h, body);
  }

  lemma SpliceText(b: seq<byte>, at: nat, h: nat, body: seq<byte>, isKey: bool)
    requires h >= 1 && Has(b, at, Expand(h, Literal(body)))
    ensures var next := at + |Expand(h, Literal(body))|;
            var hits := TokenHits(h, at, Text(body), isKey);
            && next <= |b| && InOrder(hits, at, next)
            && Splice(b, hits, at, next) == Print(h, MaskToken(Text(body), isKey))
  {
    hide Expand, Literal, Has, QuoteAtDepth, Splice, Replacement;
    var content, next := Expand(h, body), at + |Expand(h, Literal(body))|;
    LiteralParts(b, at, h, body);
    ExpandsToNothing(h, body);
    SpliceNothing(b, at, next);
    if isKey || body == [] {
    } else if content == PLACEHOLDER {
      AlreadyPlaceholder(h, body);
    } else {
      SpliceContent(b, at, h, content, next);
    }
  }

  lemma SpliceContent(b: seq<byte>, at: nat, h: nat, content: seq<byte>, next: nat)
    requires h >= 1 && next == at + h + |content| + h <= |b|
    requires b[at..at + h] == QuoteAtDepth(h) && b[at + h + |content|..next] == QuoteAtDepth(h)
    ensures var hits := [Edit(at + h, at + h + |content|, PLACEHOLDER)];
      InOrder(hits, at, next) && Splice(b, hits, at, next) == Print(h, Text(PLACEHOLDER))
  {
    hide QuoteAtDepth, Splice, Print;
    SpliceOne(b, Edit(at + h, at + h + |content|, PLACEHOLDER), at, next);
    PrintedPlaceholder(h);
  }

  lemma SpliceNumber(b: seq<byte>, at: nat, h: nat, digits: seq<byte>)
    requires h >= 1 && Has(b, at, digits)
    ensures var next := at + |digits|;
            var hits := TokenHits(h, at, Number(digits), false);
            && next <= |b| && InOrder(hits, at, next)
            && Splice(b, hits, at, next) == Print(h, Text(PLACEHOLDER))
  {
    HasSlice(b, at, digits);
    PrintedPlaceholder(h);
    hide Has, Print, Replacement;
    var next := at + |digits|;
    var r := Replacement(false, QUOTE, h - 1);
    SpliceOne(b, Edit(at, next, r), at, next);
    assert b[at..at] + r + b[next..next] == r;
  }

  /** Replacing a token's hits prints the masked token. */
  lemma SpliceToken(b: seq<byte>, at: nat, h: nat, t: Token, isKey: bool)
    requires h >= 1 && Has(b, at, Print(h, t))
    ensures var next := at + |Print(h, t)|;
            && next <= |b| && InOrder(TokenHits(h, at, t, isKey), at, next)
            && Splice(b, TokenHits(h, at, t, isKey), at, next) == Print(h, MaskToken(t, isKey))
  {
    hide Has, Splice, InOrder, Expand, Literal;
    match t {
      case Text(body) => SpliceText(b, at, h, body, isKey);
      case Number(digits) => SpliceNumber(b, at, h, digits);
      case _ =>
        HasSlice(b, at, Print(h, t));
        SpliceNothing(b, at, at + |Print(h, t)|);
    }
  }

  lemma SpliceSeen(b: seq<byte>, at: nat, h: nat, prev: byte, t: Token, isKey: bool)
    requires h >= 1 && Has(b, at, Print(h, t))
    ensures var next := at + |Print(h, t)|;
            var hits := SeenHits(h, at, prev, t, isKey);
            && next <= |b| && InOrder(hits, at, next)
            && Splice(b, hits, at, next) == Print(h, if Shown(prev, t) then MaskToken(t, isKey) else t)
  {
    hide Has, Print, TokenHits, MaskToken, Splice, InOrder;
    if Shown(prev, t) {
      SpliceToken(b, at, h, t, isKey);
    } else {
      HasSlice(b, at, Print(h, t));
      SpliceNothing(b, at, at + |Print(h, t)|);
    }
  }

  lemma SpliceNoTokens(b: seq<byte>, i: nat, h: nat, prev: byte, ts: seq<Token>, gaps: seq<seq<byte>>)
    requires h >= 1 && ts == [] && |gaps| == |ts| && Has(b, i, Render(h, ts, gaps))
    ensures var end := i + |Render(h, ts, gaps)|;
            && end <= |b| && InOrder(Hits(h, i, prev, ts, gaps), i, end)
            && Splice(b, Hits(h, i, prev, ts, gaps), i, end) == Render(h, MaskSeen(prev, ts), gaps)
  {
  }

  lemma {:induction false} SpliceTokens(b: seq<byte>, i: nat, h: nat, prev: byte, ts: seq<Token>, gaps: seq<seq<byte>>)
    requires h >= 1 && |gaps| == |ts| && Has(b, i, Render(h, ts, gaps))
    ensures var end := i + |Render(h, ts, gaps)|;
            && end <= |b| && InOrder(Hits(h, i, prev, ts, gaps), i, end)
            && Splice(b, Hits(h, i, prev, ts, gaps), i, end) == Render(h, MaskSeen(prev, ts), gaps)
    decreases |ts|
  {
    hide *;
    if ts == [] {
      SpliceNoTokens(b, i, h, prev, ts, gaps);
    } else {
      RenderSplits(b, i, h, ts, gaps);
      var at := i + |gaps[0]|;
      var next := at + |Print(h, ts[0])|;
      var end := i + |Render(h, ts, gaps)|;
      var isKey := KeyFirst(ts);
      SpliceSeen(b, at, h, prev, ts[0], isKey);
      SpliceTokens(b, next, h, LastByte(ts[0]), ts[1..], gaps[1..]);
      var first := SeenHits(h, at, prev, ts[0], isKey);
      var rest := Hits(h, next, LastByte(ts[0]), ts[1..], gaps[1..]);
      HasSlice(b, i, gaps[0]);
      SpliceAfterGap(b, first, rest, i, at, next, end);
      OneMoreToken(h, i, prev, ts, gaps);
    }
  }

  /** The definitions, one token unrolled. */
  lemma OneMoreToken(h: nat, i: nat, prev: byte, ts: seq<Token>, gaps: seq<seq<byte>>)
    requires h >= 1 && ts != [] && |gaps| == |ts|
    ensures var at := i + |gaps[0]|;
            var t, isKey := ts[0], KeyFirst(ts);
            && Hits(h, i, prev, ts, gaps) ==
               SeenHits(h, at, prev, t, isKey) + Hits(h, at + |Print(h, t)|, LastByte(t), ts[1..], gaps[1..])
            && Render(h, MaskSeen(prev, ts), gaps) ==
               gaps[0] + Print(h, if Shown(prev, t) then MaskToken(t, isKey) else t)
               + Render(h, MaskSeen(LastByte(t), ts[1..]), gaps[1..])
  {
    hide Print, SeenHits, MaskToken, Shown, LastByte;
    assert MaskSeen(prev, ts)[1..] == MaskSeen(LastByte(ts[0]), ts[1..]);
  }

  // ---- From the document to its tokens ----

  lemma {:induction false} MaskConcat(ts: seq<Token>, us: seq<Token>)
    requires us != [] ==> !us[0].Colon?
    ensures MaskTokens(ts + us) == MaskTokens(ts) + MaskTokens(us)
  {
    if ts == [] {
      assert ts + us == us;
    } else {
      assert (ts + us)[1..] == ts[1..] + us;
      assert KeyFirst(ts + us) == KeyFirst(ts);
      MaskConcat(ts[1..], us);
      Assoc([MaskToken(ts[0], KeyFirst(ts))], MaskTokens(ts[1..]), MaskTokens(us));
    }
  }

  lemma MaskSingle(t: Token)
    ensures MaskTokens([t]) == [MaskToken(t, false)]
  {
    assert [t][1..] == [];
  }

  lemma FirstTokenIsNoColon(j: Json)
    ensures Tokens(j) != [] && !Tokens(j)[0].Colon?
  {
  }

  /** Masking the tokens is masking the document. */
  lemma {:induction false} MaskIsTokenwise(j: Json)
    ensures MaskTokens(Tokens(j)) == Tokens(Mask(j))
    decreases j, 0
  {
    match j
    case Arr(items) =>
      var open, close := [Open(LBRACKET)], [Close(RBRACKET)];
      MaskItems(items);
      MaskConcat(open + ItemTokens(items), close);
      MaskConcat(open, ItemTokens(items));
      MaskSingle(Open(LBRACKET));
      MaskSingle(Close(RBRACKET));
    case Obj(members) =>
      var open, close := [Open(LBRACE)], [Close(RBRACE)];
      MaskMembers(members);
      MaskConcat(open + MemberTokens(members), close);
      MaskConcat(open, MemberTokens(members));
      MaskSingle(Open(LBRACE));
      MaskSingle(Close(RBRACE));
    case Str(body) => MaskSingle(Text(body));
    case Num(digits) => MaskSingle(Number(digits));
    case Word(letters) => MaskSingle(Letters(letters));
  }

  function MaskEach(items: seq<Json>): (r: seq<Json>)
    ensures |r| == |items|
  {
    seq(|items|, i requires 0 <= i < |items| => Mask(items[i]))
  }

  lemma {:induction false} MaskItems(items: seq<Json>)
    ensures MaskTokens(ItemTokens(items)) == ItemTokens(MaskEach(items))
    ensures ItemTokens(items) != [] ==> !ItemTokens(items)[0].Colon?
    decreases items, 1
  {
    if items != [] {
      var head, tail := Tokens(items[0]), [Comma] + ItemTokens(items[1..]);
      FirstTokenIsNoColon(items[0]);
      MaskIsTokenwise(items[0]);
      if |items| > 1 {
        MaskItems(items[1..]);
        MaskConcat(head, tail);
        MaskConcat([Comma], ItemTokens(items[1..]));
        MaskSingle(Comma);
        assert MaskEach(items)[1..] == MaskEach(items[1..]);
      } else {
        assert head + [] == head && Tokens(Mask(items[0])) + [] == Tokens(Mask(items[0]));
      }
    }
  }

  function MaskEachMember(members: seq<Member>): (r: seq<Member>)
    ensures |r| == |members|
  {
    seq(|members|, i requires 0 <= i < |members| => Member(members[i].key, Mask(members[i].value)))
  }

  lemma MaskKey(key: seq<byte>)
    ensures MaskTokens([Text(key), Colon]) == [Text(key), Colon]
  {
    MaskSingle(Colon);
    assert [Text(key), Colon][1..] == [Colon];
  }

  lemma MaskMember(m: Member, rest: seq<Token>)
    requires rest != [] ==> !rest[0].Colon?
    ensures MaskTokens([Text(m.key), Colon] + Tokens(m.value) + rest) ==
            [Text(m.key), Colon] + MaskTokens(Tokens(m.value)) + MaskTokens(rest)
  {
    var key := [Text(m.key), Colon];
    FirstTokenIsNoColon(m.value);
    MaskKey(m.key);
    hide MaskTokens, Tokens;
    MaskConcat(key + Tokens(m.value), rest);
    MaskConcat(key, Tokens(m.value));
  }

  lemma {:induction false} MaskMembers(members: seq<Member>)
    ensures MaskTokens(MemberTokens(members)) == MemberTokens(MaskEachMember(members))
    ensures MemberTokens(members) != [] ==> !MemberTokens(members)[0].Colon?
    decreases members, 1
  {
    if members != [] {
      var m := members[0];
      assert m in members;
      MaskIsTokenwise(m.value);
      if |members| > 1 {
        var rest := MemberTokens(members[1..]);
        MaskMembers(members[1..]);
        MaskConcat([Comma], rest);
        MaskSingle(Comma);
        MaskMember(m, [Comma] + rest);
        assert MaskEachMember(members)[1..] == MaskEachMember(members[1..]);
      } else {
        MaskMember(m, []);
      }
    }
  }

  // ---- A well-formed document's tokens are in order ----

  /** Before a comma or a close it does not matter what came before. */
  lemma OrderlyAfter(prev: byte, us: seq<Token>)
    requires us != [] && EndsValue(us[0]) && Orderly(COMMA, us)
    ensures Orderly(prev, us)
  {
  }

  lemma OrderlyCons(prev: byte, t: Token, us: seq<Token>)
    requires TokenOk(t) && us != [] && Orderly(LastByte(t), us)
    requires t.Number? ==> NumberMayFollow(prev) && EndsValue(us[0])
    ensures Orderly(prev, [t] + us)
  {
    assert ([t] + us)[1..] == us;
  }

  lemma Bracketed(a: Token, mid: seq<Token>, c: Token, us: seq<Token>)
    ensures [a] + mid + [c] + us == [a] + (mid + ([c] + us))
  {
  }

  lemma {:induction false} ValueIsOrderly(j: Json, prev: byte, us: seq<Token>)
    requires WellFormed(j) && NumberMayFollow(prev)
    requires us != [] && EndsValue(us[0]) && Orderly(COMMA, us)
    ensures Orderly(prev, Tokens(j) + us)
    decreases j, 0
  {
    hide Orderly, ItemTokens, MemberTokens;
    match j
    case Arr(items) =>
      var close := [Close(RBRACKET)] + us;
      OrderlyAfter(RBRACKET, us);
      OrderlyCons(COMMA, Close(RBRACKET), us);
      ItemsAreOrderly(items, LBRACKET, close);
      OrderlyCons(prev, Open(LBRACKET), ItemTokens(items) + close);
      Bracketed(Open(LBRACKET), ItemTokens(items), Close(RBRACKET), us);
    case Obj(members) =>
      var close := [Close(RBRACE)] + us;
      OrderlyAfter(RBRACE, us);
      OrderlyCons(COMMA, Close(RBRACE), us);
      // A member's first token is a string, so the opening brace need not let a number follow it.
      MembersAreOrderly(members, LBRACE, close);
      OrderlyCons(prev, Open(LBRACE), MemberTokens(members) + close);
      Bracketed(Open(LBRACE), MemberTokens(members), Close(RBRACE), us);
    case Str(body) =>
      OrderlyAfter(QUOTE, us);
      OrderlyCons(prev, Text(body), us);
    case Num(digits) =>
      OrderlyAfter(QUOTE, us);
      OrderlyCons(prev, Number(digits), us);
    case Word(letters) =>
      OrderlyAfter(LastByte(Letters(letters)), us);
      OrderlyCons(prev, Letters(letters), us);
  }

  lemma {:induction false} ItemsAreOrderly(items: seq<Json>, prev: byte, us: seq<Token>)
    requires (forall i :: 0 <= i < |items| ==> WellFormed(items[i])) && NumberMayFollow(prev)
    requires us != [] && us[0].Close? && Orderly(COMMA, us)
    ensures Orderly(prev, ItemTokens(items) + us)
    decreases items, 1
  {
    if items == [] {
      OrderlyAfter(prev, us);
      assert ItemTokens(items) + us == us;
    } else if |items| == 1 {
      ValueIsOrderly(items[0], prev, us);
      assert ItemTokens(items) + us == Tokens(items[0]) + us;
    } else {
      var rest := ItemTokens(items[1..]) + us;
      ItemsAreOrderly(items[1..], COMMA, us);
      assert ([Comma] + rest)[1..] == rest;
      ValueIsOrderly(items[0], prev, [Comma] + rest);
      assert ItemTokens(items) + us == Tokens(items[0]) + ([Comma] + rest);
    }
  }

  /** What follows a member's value: the rest of the object, and whatever follows it. */
  function AfterMember(members: seq<Member>, us: seq<Token>): seq<Token>
    requires members != []
  {
    if |members| == 1 then us else [Comma] + (MemberTokens(members[1..]) + us)
  }

  lemma FirstMember(members: seq<Member>, us: seq<Token>)
    requires members != []
    ensures MemberTokens(members) + us ==
            [Text(members[0].key)] + ([Colon] + (Tokens(members[0].value) + AfterMember(members, us)))
  {
    hide Tokens;
    var head, value := [Text(members[0].key), Colon], Tokens(members[0].value);
    var more := if |members| == 1 then [] else [Comma] + MemberTokens(members[1..]);
    Assoc(head + value, more, us);
    Assoc(head, value, more + us);
    assert more + us == AfterMember(members, us) by {
      if |members| == 1 {
        assert [] + us == us;
      } else {
        Assoc([Comma], MemberTokens(members[1..]), us);
      }
    }
    PairThen(Text(members[0].key), Colon, value + AfterMember(members, us));
  }

  lemma PairThen(a: Token, b: Token, us: seq<Token>)
    ensures [a, b] + us == [a] + ([b] + us)
  {
  }

  lemma MemberIsOrderly(m: Member, prev: byte, us: seq<Token>)
    requires IsBody(m.key) && WellFormed(m.value)
    requires us != [] && EndsValue(us[0]) && Orderly(COMMA, us)
    ensures Orderly(prev, [Text(m.key)] + ([Colon] + (Tokens(m.value) + us)))
    decreases m, 1
  {
    hide Orderly;
    ValueIsOrderly(m.value, COLON, us);
    OrderlyCons(QUOTE, Colon, Tokens(m.value) + us);
    OrderlyCons(prev, Text(m.key), [Colon] + (Tokens(m.value) + us));
  }

  lemma {:induction false} MembersAreOrderly(members: seq<Member>, prev: byte, us: seq<Token>)
    requires forall i :: 0 <= i < |members| ==> IsBody(members[i].key) && WellFormed(members[i].value)
    requires us != [] && us[0].Close? && Orderly(COMMA, us)
    ensures Orderly(prev, MemberTokens(members) + us)
    decreases members, 1
  {
    OrderlyAfter(prev, us);
    hide Orderly, MemberTokens;
    if members == [] {
      NoMembers(us);
    } else {
      assert members[0] in members;
      if |members| > 1 {
        MembersAreOrderly(members[1..], COMMA, us);
        OrderlyCons(COMMA, Comma, MemberTokens(members[1..]) + us);
      }
      MemberIsOrderly(members[0], prev, AfterMember(members, us));
      FirstMember(members, us);
    }
  }

  lemma NoMembers(us: seq<Token>)
    ensures MemberTokens([]) + us == us
  {
  }

  /** A value leaves the depth as it found it. */
  lemma {:induction false} ValueBalances(j: Json, depth: nat, us: seq<Token>)
    requires depth >= 1
    ensures ClosesLast(depth, Tokens(j) + us) == ClosesLast(depth, us)
    decreases j, 0
  {
    var all := Tokens(j) + us;
    match j
    case Arr(items) =>
      var close := [Close(RBRACKET)] + us;
      assert all[1..] == ItemTokens(items) + close && close[1..] == us;
      ItemsBalance(items, depth + 1, close);
    case Obj(members) =>
      var close := [Close(RBRACE)] + us;
      assert all[1..] == MemberTokens(members) + close && close[1..] == us;
      MembersBalance(members, depth + 1, close);
    case _ =>
      assert all[1..] == us;
  }

  lemma {:induction false} ItemsBalance(items: seq<Json>, depth: nat, us: seq<Token>)
    requires depth >= 1
    ensures ClosesLast(depth, ItemTokens(items) + us) == ClosesLast(depth, us)
    decreases items, 1
  {
    if items == [] {
      assert ItemTokens(items) + us == us;
    } else if |items| == 1 {
      ValueBalances(items[0], depth, us);
      assert ItemTokens(items) + us == Tokens(items[0]) + us;
    } else {
      var rest := ItemTokens(items[1..]) + us;
      ItemsBalance(items[1..], depth, us);
      assert ([Comma] + rest)[1..] == rest;
      ValueBalances(items[0], depth, [Comma] + rest);
      assert ItemTokens(items) + us == Tokens(items[0]) + ([Comma] + rest);
    }
  }

  lemma ClosesLastCons(depth: nat, t: Token, us: seq<Token>)
    requires !t.Open? && !t.Close?
    ensures ClosesLast(depth, [t] + us) == ClosesLast(depth, us)
  {
    assert ([t] + us)[1..] == us;
  }

  lemma {:induction false} MembersBalance(members: seq<Member>, depth: nat, us: seq<Token>)
    requires depth >= 1
    ensures ClosesLast(depth, MemberTokens(members) + us) == ClosesLast(depth, us)
    decreases members, 1
  {
    hide ClosesLast, MemberTokens;
    if members == [] {
      NoMembers(us);
    } else {
      var m := members[0];
      assert m in members;
      var rest := AfterMember(members, us);
      if |members| > 1 {
        MembersBalance(members[1..], depth, us);
        ClosesLastCons(depth, Comma, MemberTokens(members[1..]) + us);
      }
      ValueBalances(m.value, depth, rest);
      ClosesLastCons(depth, Colon, Tokens(m.value) + rest);
      ClosesLastCons(depth, Text(m.key), [Colon] + (Tokens(m.value) + rest));
      FirstMember(members, us);
    }
  }

  lemma ContainerIsOrderly(j: Json)
    requires WellFormed(j) && (j.Arr? || j.Obj?)
    ensures Orderly(LBRACKET, Tokens(j)) && ClosesLast(0, Tokens(j))
  {
    var ts := Tokens(j);
    if j.Arr? {
      var close := [Close(RBRACKET)];
      assert close[1..] == [] && ts[1..] == ItemTokens(j.items) + close;
      ItemsAreOrderly(j.items, LBRACKET, close);
      ItemsBalance(j.items, 1, close);
    } else {
      var close := [Close(RBRACE)];
      assert close[1..] == [] && ts[1..] == MemberTokens(j.members) + close;
      MembersAreOrderly(j.members, LBRACE, close);
      MembersBalance(j.members, 1, close);
    }
  }

  // ---- Nested documents that keep their line breaks ----

  /** The tokens less the escaped breaks among them. */
  function WithoutBreaks(us: seq<Token>): (ts: seq<Token>)
    ensures |ts| <= |us|
  {
    if us == [] then []
    else (if us[0].Break? then [] else [us[0]]) + WithoutBreaks(us[1..])
  }

  /** Every break is one, and none follows the last token. */
  predicate WellBroken(us: seq<Token>) {
    (forall u :: u in us && u.Break? ==> TokenOk(u)) && (us != [] ==> !us[|us| - 1].Break?)
  }

  lemma {:induction false} LastOfBroken(us: seq<Token>)
    requires us != [] && !us[|us| - 1].Break?
    ensures WithoutBreaks(us) != []
  {
    if |us| > 1 {
      LastOfBroken(us[1..]);
    }
  }

  lemma WellBrokenTail(us: seq<Token>)
    requires us != [] && WellBroken(us)
    ensures WellBroken(us[1..])
  {
    assert forall u :: u in us[1..] ==> u in us;
  }

  /** The first real token is the first token, or stands behind breaks. */
  lemma {:induction false} FirstReal(us: seq<Token>)
    requires WithoutBreaks(us) != []
    ensures us != [] && (us[0] == WithoutBreaks(us)[0] || us[0].Break?)
  {
  }

  /** Breaks put between the tokens of a document leave it legible and closed by its last token. */
  lemma {:induction false} BrokenIsLegible(prev: byte, us: seq<Token>, depth: nat)
    requires WellBroken(us) && Orderly(prev, WithoutBreaks(us)) && ClosesLast(depth, WithoutBreaks(us))
    ensures Legible(us) && ClosesLast(depth, us)
    decreases |us|
  {
    hide TokenOk, EndsValue;
    if us != [] {
      var t, ts := us[0], WithoutBreaks(us);
      assert t in us;
      WellBrokenTail(us);
      if t.Break? {
        assert ts == WithoutBreaks(us[1..]);
        BrokenIsLegible(prev, us[1..], depth);
      } else {
        assert ts == [t] + WithoutBreaks(us[1..]) && ts[1..] == WithoutBreaks(us[1..]);
        if ts[1..] != [] {
          FirstReal(us[1..]);
          assert ts[1] == ts[1..][0];
        }
        if t.Close? && depth <= 1 {
          if us[1..] != [] {
            LastOfBroken(us[1..]);
          }
          assert us[1..] == [];
        } else {
          BrokenIsLegible(LastByte(t), us[1..], if t.Open? then depth + 1 else if t.Close? then depth - 1 else depth);
        }
      }
    }
  }

  /** No break stands before a number, nor between a key and its colon, the keys that masking would not change aside. */
  predicate Undisturbed(prev: byte, us: seq<Token>)
    decreases |us|
  {
    us == [] ||
    (&& Shown(prev, us[0])
     && (us[0].Text? && KeyFirst(WithoutBreaks(us)) ==> KeyFirst(us) || MaskToken(us[0], false) == us[0])
     && Undisturbed(LastByte(us[0]), us[1..]))
  }

  /** What is masked with breaks among the tokens is what is masked without them, exactly when none disturbs. */
  lemma {:induction false} MaskSeenWithout(prev: byte, us: seq<Token>)
    requires WellBroken(us)
    ensures |WithoutBreaks(MaskSeen(prev, us))| == |MaskTokens(WithoutBreaks(us))|
    ensures WithoutBreaks(MaskSeen(prev, us)) == MaskTokens(WithoutBreaks(us)) <==> Undisturbed(prev, us)
    decreases |us|
  {
    hide Shown, LastByte, TokenOk;
    if us != [] {
      var t, seen := us[0], MaskSeen(prev, us);
      WellBrokenTail(us);
      MaskSeenWithout(LastByte(t), us[1..]);
      assert seen[1..] == MaskSeen(LastByte(t), us[1..]);
      ShownUnlessNumber(prev, t);
      if t.Break? {
        assert WithoutBreaks(us) == WithoutBreaks(us[1..]);
        assert seen[0] == t && WithoutBreaks(seen) == WithoutBreaks(seen[1..]);
      } else {
        assert WithoutBreaks(us)[1..] == WithoutBreaks(us[1..]);
        if KeyFirst(us) {
          KeyAmongBreaks(us);
        }
        var was, now := MaskToken(t, KeyFirst(WithoutBreaks(us))), seen[0];
        assert WithoutBreaks(seen) == [now] + WithoutBreaks(seen[1..]);
        assert MaskTokens(WithoutBreaks(us)) == [was] + MaskTokens(WithoutBreaks(us[1..]));
        HeadsAndTails(now, WithoutBreaks(seen[1..]), was, MaskTokens(WithoutBreaks(us[1..])));
      }
    }
  }

  lemma ShownUnlessNumber(prev: byte, t: Token)
    ensures !t.Number? ==> Shown(prev, t)
  {
  }

  lemma KeyAmongBreaks(us: seq<Token>)
    requires us != [] && !us[0].Break? && KeyFirst(us)
    ensures KeyFirst(WithoutBreaks(us))
  {
    assert us[1..][0] == us[1];
    assert WithoutBreaks(us)[1..] == WithoutBreaks(us[1..]);
  }

  lemma HeadsAndTails<T>(x: T, a: seq<T>, y: T, b: seq<T>)
    ensures [x] + a == [y] + b <==> x == y && a == b
  {
    assert ([x] + a)[1..] == a && ([y] + b)[1..] == b;
    assert ([x] + a)[0] == x && ([y] + b)[0] == y;
  }

  /** In a document's own tokens every number is seen. */
  lemma {:induction false} OrderlyIsSeen(prev: byte, ts: seq<Token>)
    requires Orderly(prev, ts)
    ensures Legible(ts) && MaskSeen(prev, ts) == MaskTokens(ts)
    decreases |ts|
  {
    if ts != [] {
      OrderlyIsSeen(LastByte(ts[0]), ts[1..]);
    }
  }

  /**
   Wherever an object or list stands in a text, printed `n` strings deep with any whitespace between its
   tokens: the walk ends on its closing byte, and applying the hits turns its bytes into the same
   printing of the masked document.
   */
  lemma ContainerIsMasked(b: seq<byte>, at: nat, n: nat, j: Json, gaps: seq<seq<byte>>)
    requires WellFormed(j) && (j.Arr? || j.Obj?)
    requires |gaps| == |Tokens(j)| && AllGaps(gaps)
    requires var text := Render(Pow2(n), Tokens(j), gaps); at + |text| <= |b| && b[at..at + |text|] == text
    ensures var (hits, end) := Walk(b, at, 0, LBRACKET, QUOTE, Level(n));
            && end == at + |Render(Pow2(n), Tokens(j), gaps)| && InOrder(hits, at, end)
            && |gaps| == |Tokens(Mask(j))|
            && Splice(b, hits, at, end) == Render(Pow2(n), Tokens(Mask(j)), gaps)
  {
    hide Walk, Render, Tokens, Splice, Mask, Hits, Orderly, Legible, ClosesLast, MaskTokens, MaskSeen;
    var h, ts := Pow2(n), Tokens(j);
    HasSlice(b, at, Render(h, ts, gaps));
    ContainerIsOrderly(j);
    OrderlyIsSeen(LBRACKET, ts);
    WalkTokens(b, at, h, ts, gaps, 0, LBRACKET);
    SpliceTokens(b, at, h, LBRACKET, ts, gaps);
    MaskIsTokenwise(j);
  }

  /**
   The same for a nested document that keeps its line breaks, as escapes anywhere among its tokens `us`:
   the hits are exactly those of the tokens as the walk sees them, and that masks the document if and
   only if no break stands before a number or between a key and its colon.
   */
  lemma BrokenContainerIsMasked(b: seq<byte>, at: nat, n: nat, j: Json, us: seq<Token>, gaps: seq<seq<byte>>)
    requires WellFormed(j) && (j.Arr? || j.Obj?)
    requires WithoutBreaks(us) == Tokens(j) && WellBroken(us)
    requires |gaps| == |us| && AllGaps(gaps)
    requires var text := Render(Pow2(n), us, gaps); at + |text| <= |b| && b[at..at + |text|] == text
    ensures var (hits, end) := Walk(b, at, 0, LBRACKET, QUOTE, Level(n));
            && end == at + |Render(Pow2(n), us, gaps)| && InOrder(hits, at, end)
            && Splice(b, hits, at, end) == Render(Pow2(n), MaskSeen(LBRACKET, us), gaps)
    ensures WithoutBreaks(MaskSeen(LBRACKET, us)) == Tokens(Mask(j)) <==> Undisturbed(LBRACKET, us)
  {
    hide Walk, Render, Tokens, Splice, Mask, Hits, Orderly, Legible, ClosesLast, MaskTokens, MaskSeen, Undisturbed,
      WithoutBreaks, WellBroken;
    var h := Pow2(n);
    HasSlice(b, at, Render(h, us, gaps));
    ContainerIsOrderly(j);
    BrokenIsLegible(LBRACKET, us, 0);
    WalkTokens(b, at, h, us, gaps, 0, LBRACKET);
    SpliceTokens(b, at, h, LBRACKET, us, gaps);
    MaskIsTokenwise(j);
    MaskSeenWithout(LBRACKET, us);
  }

  /** For one: `[\n1]`, one string deep, has no hit at all. */
  lemma EscapedBreakHidesNumber()
    ensures Walk([LBRACKET, BACKSLASH, 110, 49, RBRACKET], 0, 0, LBRACKET, QUOTE, 1) == ([], 5)
  {
    var b := [LBRACKET, BACKSLASH, 110, 49, RBRACKET];
    assert ScalarAt(b, 1, QUOTE, 1) == None;
    assert ScalarAt(b, 2, QUOTE, 1) == None;
    assert Walk(b, 4, 1, 110, QUOTE, 1) == ([], 5);
    assert Walk(b, 3, 1, 110, QUOTE, 1) == ([], 5);
    assert Walk(b, 2, 1, BACKSLASH, QUOTE, 1) == ([], 5);
    assert Walk(b, 1, 1, LBRACKET, QUOTE, 1) == ([], 5);
  }
}
