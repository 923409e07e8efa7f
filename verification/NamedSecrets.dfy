/**
 A whole JSON document under the name scan: what stands under a secret name is masked, wherever it is nested,
 and everything else is left as it was.
 */
module NamedSecrets {
  import opened Bytes
  import opened Options
  import opened EscapedJson
  import opened Splices
  import opened SecretContainer
  import opened SecretDocument
  import opened JsonReader
  import opened NameScan
  import opened SecretMembers

  // ---- The document meant ----

  /** The values under secret names masked, all else unchanged. */
  function MaskNamed(j: Json, judge: Judge): Json
    decreases j, 0
  {
    match j
    case Arr(items) => Arr(MaskItems(items, judge))
    case Obj(members) => Obj(MaskMembers(members, judge))
    case _ => j
  }

  function MaskItems(items: seq<Json>, judge: Judge): (r: seq<Json>)
    ensures |r| == |items|
    decreases items, 1
  {
    if items == [] then [] else [MaskNamed(items[0], judge)] + MaskItems(items[1..], judge)
  }

  function MaskMembers(members: seq<SecretDocument.Member>, judge: Judge): (r: seq<SecretDocument.Member>)
    ensures |r| == |members|
    decreases members, 1
  {
    if members == [] then []
    else [MaskOne(members[0], judge)] + MaskMembers(members[1..], judge)
  }

  function MaskOne(m: SecretDocument.Member, judge: Judge): SecretDocument.Member
    decreases m, 0
  {
    m.(value := if SecretName(m.key, judge) then Mask(m.value) else MaskNamed(m.value, judge))
  }

  /** Names with nothing escaped in them; and, outside the secret values, no `=` or colon in a name or a string. */
  predicate Scannable(j: Json, judge: Judge)
    decreases j
  {
    match j
    case Str(body) => Silent(body)
    case Arr(items) => forall i :: 0 <= i < |items| ==> Scannable(items[i], judge)
    case Obj(members) => forall i :: 0 <= i < |members| ==> ScannableMember(members[i], judge)
    case _ => true
  }

  predicate ScannableMember(m: SecretDocument.Member, judge: Judge)
    decreases m
  {
    PlainName(m.key, QUOTE) && Silent(m.key) && (SecretName(m.key, judge) || Scannable(m.value, judge))
  }

  // ---- Stretches of the text, one after the other ----

  /** From `i` to `k` the scan yields `hits`, which turn what stands there into `printed`. */
  ghost predicate Stretch(b: seq<byte>, i: nat, hits: seq<Edit>, k: nat, printed: seq<byte>, judge: Judge) {
    i <= k <= |b| && InOrder(hits, i, k) && Splice(b, hits, i, k) == printed && Yields(b, i, hits, k, judge)
  }

  lemma StretchThen(b: seq<byte>, i: nat, one: seq<Edit>, k: nat, p: seq<byte>, two: seq<Edit>, n: nat, q: seq<byte>,
      judge: Judge)
    requires Stretch(b, i, one, k, p, judge) && Stretch(b, k, two, n, q, judge)
    ensures Stretch(b, i, one + two, n, p + q, judge)
  {
    hide Splice, Yields;
    SpliceConcat(b, one, two, i, k, n);
    YieldsThen(b, i, one, k, two, n, judge);
  }

  lemma SilentStretch(b: seq<byte>, i: nat, x: seq<byte>, judge: Judge)
    requires Has(b, i, x) && Silent(x)
    ensures Stretch(b, i, [], i + |x|, x, judge)
  {
    hide Yields, Has, Silent;
    HasSlice(b, i, x);
    SilentScan(b, i, x, judge);
    SpliceNothing(b, i, i + |x|);
  }

  lemma SilentConcat(x: seq<byte>, y: seq<byte>)
    requires Silent(x) && Silent(y)
    ensures Silent(x + y)
  {
  }

  lemma SpaceIsSilent(gap: seq<byte>)
    requires AllSpace(gap)
    ensures Silent(gap)
  {
  }

  lemma {:induction false} ExpandIsSilent(h: nat, s: seq<byte>)
    requires h >= 1 && Silent(s)
    ensures Silent(Expand(h, s))
  {
    if s != [] {
      assert s[0] in s && forall c :: c in s[1..] ==> c in s;
      ExpandIsSilent(h, s[1..]);
    }
  }

  /** Every token but a colon, and every gap, is passed over, when strings hold neither `=` nor colon. */
  lemma TokenIsSilent(h: nat, t: Token)
    requires h >= 1 && TokenOk(t) && !t.Colon? && !t.Break? && (t.Text? ==> Silent(t.body))
    ensures Silent(Print(h, t))
  {
    hide Expand;
    match t
    case Text(body) => ExpandIsSilent(h, Literal(body));
    case Number(digits) => assert forall c :: c in digits ==> InNumber(c);
    case Letters(letters) => assert forall c :: c in letters ==> IsLetter(c);
    case _ =>
  }

  /** A gap and the token after it. */
  lemma TokenStretch(b: seq<byte>, i: nat, h: nat, gap: seq<byte>, t: Token, judge: Judge)
    requires h >= 1 && TokenOk(t) && !t.Colon? && !t.Break? && (t.Text? ==> Silent(t.body)) && AllSpace(gap)
    requires Has(b, i, gap + Print(h, t))
    ensures Stretch(b, i, [], i + |gap| + |Print(h, t)|, gap + Print(h, t), judge)
  {
    hide Print, Has, Stretch, Silent;
    TokenIsSilent(h, t);
    SpaceIsSilent(gap);
    SilentConcat(gap, Print(h, t));
    SilentStretch(b, i, gap + Print(h, t), judge);
  }

  // ---- Documents ----

  lemma {:induction false} TreeYields(b: seq<byte>, i: nat, n: nat, j: Json, gaps: seq<seq<byte>>, judge: Judge)
    returns (hits: seq<Edit>)
    requires n <= 3 && WellFormed(j) && Scannable(j, judge) && |gaps| == |Tokens(j)| && AllGaps(gaps)
    requires Has(b, i, Render(Pow2(n), Tokens(j), gaps))
    ensures |Tokens(MaskNamed(j, judge))| == |gaps|
    ensures Stretch(b, i, hits, i + |Render(Pow2(n), Tokens(j), gaps)|,
                    Render(Pow2(n), Tokens(MaskNamed(j, judge)), gaps), judge)
    decreases j, 0
  {
    hide Stretch, Has, Print, Pow2;
    var h := Pow2(n);
    match j {
      case Arr(items) => hits := ListYields(b, i, n, items, gaps, judge);
      case Obj(members) => hits := ObjectYields(b, i, n, members, gaps, judge);
      case _ =>
        var t := Tokens(j)[0];
        OneTokenRenders(h, t, gaps);
        ScalarTokenOk(j);
        GapAt(gaps, 0);
        TokenStretch(b, i, h, gaps[0], t, judge);
        hits := [];
    }
  }

  lemma ScalarTokenOk(j: Json)
    requires WellFormed(j) && !j.Arr? && !j.Obj?
    ensures Tokens(j) == [Tokens(j)[0]]
    ensures var t := Tokens(j)[0]; TokenOk(t) && !t.Colon? && !t.Break? && (t.Text? ==> t == Text(j.body))
  {
  }

  /** A bracketed run of tokens: its opening, its middle and its close, where they stand. */
  lemma BracketsAt(b: seq<byte>, i: nat, h: nat, open: Token, mid: seq<Token>, close: Token, gaps: seq<seq<byte>>)
    requires h >= 1 && |gaps| == |mid| + 2 && Has(b, i, Render(h, [open] + mid + [close], gaps))
    ensures var inner, gap := gaps[1..][..|mid|], gaps[|mid| + 1];
      var m := i + |gaps[0]| + |Print(h, open)|;
      var c := m + |Render(h, mid, inner)|;
      && Has(b, i, gaps[0] + Print(h, open)) && Has(b, m, Render(h, mid, inner)) && Has(b, c, gap + Print(h, close))
      && Render(h, [open] + mid + [close], gaps)
         == gaps[0] + Print(h, open) + (Render(h, mid, inner) + (gap + Print(h, close)))
  {
    hide Has, Render, Print;
    var inner, gap := gaps[1..], gaps[|mid| + 1];
    assert [open] + mid + [close] == [open] + (mid + [close]);
    RenderCons(h, open, mid + [close], gaps);
    RenderConcat(h, mid, [close], inner);
    assert inner[|mid|..] == [gap];
    OneTokenRenders(h, close, [gap]);
    var body, end := Render(h, mid, inner[..|mid|]), gap + Print(h, close);
    Assoc(gaps[0], Print(h, open), body + end);
    HasSplit(b, i, gaps[0] + Print(h, open), body + end);
    HasSplit(b, i + |gaps[0]| + |Print(h, open)|, body, end);
  }

  lemma {:induction false} ListYields(b: seq<byte>, i: nat, n: nat, items: seq<Json>, gaps: seq<seq<byte>>,
      judge: Judge) returns (hits: seq<Edit>)
    requires n <= 3 && WellFormed(Arr(items)) && Scannable(Arr(items), judge)
    requires |gaps| == |Tokens(Arr(items))| && AllGaps(gaps)
    requires Has(b, i, Render(Pow2(n), Tokens(Arr(items)), gaps))
    ensures |Tokens(Arr(MaskItems(items, judge)))| == |gaps|
    ensures Stretch(b, i, hits, i + |Render(Pow2(n), Tokens(Arr(items)), gaps)|,
                    Render(Pow2(n), Tokens(Arr(MaskItems(items, judge))), gaps), judge)
    decreases items, 3
  {
    hide Stretch, Has, Print, Render, Pow2, ItemTokens, MaskItems, AllGaps;
    var h, open, close := Pow2(n), Open(LBRACKET), Close(RBRACKET);
    var mid, masked := ItemTokens(items), ItemTokens(MaskItems(items, judge));
    var inner, gap := gaps[1..][..|mid|], gaps[|mid| + 1];
    BracketsAt(b, i, h, open, mid, close, gaps);
    GapAt(gaps, 0);
    GapAt(gaps, |mid| + 1);
    GapsSplit(gaps, 1);
    GapsSplit(gaps[1..], |mid|);
    var m := i + |gaps[0]| + |Print(h, open)|;
    var c := m + |Render(h, mid, inner)|;
    TokenStretch(b, i, h, gaps[0], open, judge);
    TokenStretch(b, c, h, gap, close, judge);
    hits := ItemsYield(b, m, n, items, inner, judge);
    BracketsPrintAs(h, open, masked, close, gaps);
    var end := c + |gap| + |Print(h, close)|;
    StretchThen(b, m, hits, c, Render(h, masked, inner), [], end, gap + Print(h, close), judge);
    StretchThen(b, i, [], m, gaps[0] + Print(h, open), hits + [], end,
                Render(h, masked, inner) + (gap + Print(h, close)), judge);
    hits := [] + (hits + []);
  }

  lemma BracketsPrintAs(h: nat, open: Token, mid: seq<Token>, close: Token, gaps: seq<seq<byte>>)
    requires h >= 1 && |gaps| == |mid| + 2
    ensures Render(h, [open] + mid + [close], gaps)
      == gaps[0] + Print(h, open) + (Render(h, mid, gaps[1..][..|mid|]) + (gaps[|mid| + 1] + Print(h, close)))
  {
    var b := Render(h, [open] + mid + [close], gaps);
    assert b[0..0 + |b|] == b;
    HasSlice(b, 0, b);
    BracketsAt(b, 0, h, open, mid, close, gaps);
  }

  lemma {:induction false} ItemsYield(b: seq<byte>, i: nat, n: nat, items: seq<Json>, gaps: seq<seq<byte>>,
      judge: Judge) returns (hits: seq<Edit>)
    requires n <= 3 && (forall k :: 0 <= k < |items| ==> WellFormed(items[k]) && Scannable(items[k], judge))
    requires |gaps| == |ItemTokens(items)| && AllGaps(gaps)
    requires Has(b, i, Render(Pow2(n), ItemTokens(items), gaps))
    ensures |ItemTokens(MaskItems(items, judge))| == |gaps|
    ensures Stretch(b, i, hits, i + |Render(Pow2(n), ItemTokens(items), gaps)|,
                    Render(Pow2(n), ItemTokens(MaskItems(items, judge)), gaps), judge)
    decreases items, 1
  {
    hide Stretch, Has, Print, Render, Pow2, AllGaps, Tokens, WellFormed, Scannable;
    var h := Pow2(n);
    if items == [] {
      NoTokensAt(h, ItemTokens(items), gaps);
      SilentStretch(b, i, [], judge);
      hits := [];
    } else {
      var first, rest := Tokens(items[0]), AfterFirst(items);
      var k := |first|;
      RenderConcat(h, first, rest, gaps);
      GapsSplit(gaps, k);
      HasSplit(b, i, Render(h, first, gaps[..k]), Render(h, rest, gaps[k..]));
      hits := TreeYields(b, i, n, items[0], gaps[..k], judge);
      var at := i + |Render(h, first, gaps[..k])|;
      var one := MaskNamed(items[0], judge);
      if |items| == 1 {
        NoTokensAt(h, rest, gaps[k..]);
        assert Render(h, first, gaps[..k]) + [] == Render(h, first, gaps[..k]);
        OneItem(items, judge);
        assert gaps[..k] == gaps;
      } else {
        var others := gaps[k..][1..];
        RenderCons(h, Comma, ItemTokens(items[1..]), gaps[k..]);
        var comma := gaps[k] + Print(h, Comma);
        Assoc(gaps[k], Print(h, Comma), Render(h, ItemTokens(items[1..]), others));
        HasSplit(b, at, comma, Render(h, ItemTokens(items[1..]), others));
        GapAt(gaps, k);
        TokenStretch(b, at, h, gaps[k], Comma, judge);
        GapsSplit(gaps[k..], 1);
        var more := ItemsYield(b, at + |comma|, n, items[1..], others, judge);
        var end := i + |Render(h, ItemTokens(items), gaps)|;
        var masked := MaskItems(items[1..], judge);
        MaskItemsCons(items, judge);
        RenderConcat(h, Tokens(one), [Comma] + ItemTokens(masked), gaps);
        RenderCons(h, Comma, ItemTokens(masked), gaps[k..]);
        Assoc(gaps[k], Print(h, Comma), Render(h, ItemTokens(masked), others));
        StretchThen(b, at, [], at + |comma|, comma, more, end, Render(h, ItemTokens(masked), others), judge);
        StretchThen(b, i, hits, at, Render(h, Tokens(one), gaps[..k]), [] + more, end,
                    comma + Render(h, ItemTokens(masked), others), judge);
        hits := hits + ([] + more);
        assert at + |comma| + |Render(h, ItemTokens(items[1..]), others)| == end;
      }
    }
  }

  lemma OneItem(items: seq<Json>, judge: Judge)
    requires |items| == 1
    ensures ItemTokens(items) == Tokens(items[0])
    ensures ItemTokens(MaskItems(items, judge)) == Tokens(MaskNamed(items[0], judge))
  {
    hide Tokens, MaskNamed;
    var r := MaskItems(items, judge);
    assert r == [MaskNamed(items[0], judge)];
    assert Tokens(items[0]) + [] == Tokens(items[0]) && Tokens(r[0]) + [] == Tokens(r[0]);
  }

  lemma MaskItemsCons(items: seq<Json>, judge: Judge)
    requires |items| > 1
    ensures ItemTokens(MaskItems(items, judge))
      == Tokens(MaskNamed(items[0], judge)) + ([Comma] + ItemTokens(MaskItems(items[1..], judge)))
  {
    hide Tokens, MaskNamed;
    var r := MaskItems(items, judge);
    assert r[0] == MaskNamed(items[0], judge) && r[1..] == MaskItems(items[1..], judge);
  }

  lemma NoTokensAt(h: nat, ts: seq<Token>, gaps: seq<seq<byte>>)
    requires h >= 1 && ts == [] && |gaps| == |ts|
    ensures Render(h, ts, gaps) == []
  {
  }

  lemma {:induction false} ObjectYields(b: seq<byte>, i: nat, n: nat, members: seq<SecretDocument.Member>,
      gaps: seq<seq<byte>>, judge: Judge) returns (hits: seq<Edit>)
    requires n <= 3 && WellFormed(Obj(members)) && Scannable(Obj(members), judge)
    requires |gaps| == |Tokens(Obj(members))| && AllGaps(gaps)
    requires Has(b, i, Render(Pow2(n), Tokens(Obj(members)), gaps))
    ensures |Tokens(Obj(MaskMembers(members, judge)))| == |gaps|
    ensures Stretch(b, i, hits, i + |Render(Pow2(n), Tokens(Obj(members)), gaps)|,
                    Render(Pow2(n), Tokens(Obj(MaskMembers(members, judge))), gaps), judge)
    decreases members, 3
  {
    hide Stretch, Has, Print, Render, Pow2, MemberTokens, MaskMembers, AllGaps;
    var h, open, close := Pow2(n), Open(LBRACE), Close(RBRACE);
    var mid, masked := MemberTokens(members), MemberTokens(MaskMembers(members, judge));
    var inner, gap := gaps[1..][..|mid|], gaps[|mid| + 1];
    BracketsAt(b, i, h, open, mid, close, gaps);
    GapAt(gaps, 0);
    GapAt(gaps, |mid| + 1);
    GapsSplit(gaps, 1);
    GapsSplit(gaps[1..], |mid|);
    var m := i + |gaps[0]| + |Print(h, open)|;
    var c := m + |Render(h, mid, inner)|;
    TokenStretch(b, i, h, gaps[0], open, judge);
    TokenStretch(b, c, h, gap, close, judge);
    PrintsPunctuation(h);
    EndsInByte(b, i, h, gaps[0], open, LBRACE);
    StartsAfter(b, c, h, gap, close);
    hits := MembersYield(b, m, n, members, inner, judge);
    BracketsPrintAs(h, open, masked, close, gaps);
    var end := c + |gap| + |Print(h, close)|;
    StretchThen(b, m, hits, c, Render(h, masked, inner), [], end, gap + Print(h, close), judge);
    StretchThen(b, i, [], m, gaps[0] + Print(h, open), hits + [], end,
                Render(h, masked, inner) + (gap + Print(h, close)), judge);
    hits := [] + (hits + []);
  }

  /** What follows an opening brace or a comma follows no backslash. */
  lemma EndsInByte(b: seq<byte>, i: nat, h: nat, gap: seq<byte>, t: Token, c: byte)
    requires h >= 1 && Print(h, t) == [c] && c != BACKSLASH && Has(b, i, gap + Print(h, t))
    ensures Unescaped(b, i + |gap| + 1)
  {
    hide Print, Has;
    HasSplit(b, i, gap, [c]);
    HasHead(b, i + |gap|, [c]);
  }

  /** A gap, a comma or a close follows; no number runs on into it. */
  lemma StartsAfter(b: seq<byte>, i: nat, h: nat, gap: seq<byte>, t: Token)
    requires h >= 1 && EndsValue(t) && TokenOk(t) && AllSpace(gap) && Has(b, i, gap + Print(h, t))
    ensures i < |b| && !InNumber(b[i])
  {
    HasHead(b, i, gap + Print(h, t));
    assert gap != [] ==> IsSpace(gap[0]);
  }

  /** A name, its colon and its value, with their gaps, from `i` on. */
  lemma MemberAt(b: seq<byte>, i: nat, h: nat, key: seq<byte>, us: seq<Token>, gaps: seq<seq<byte>>)
    requires h >= 1 && |gaps| == |us| + 2
    ensures Render(h, [Text(key)] + ([Colon] + us), gaps)
      == gaps[0] + Expand(h, Literal(key)) + gaps[1] + ([COLON] + Render(h, us, gaps[2..]))
    ensures Has(b, i, Render(h, [Text(key)] + ([Colon] + us), gaps)) ==>
              var at := i + |gaps[0]|;
              var after := at + |Expand(h, Literal(key))|;
              var colon := after + |gaps[1]|;
              && Has(b, i, gaps[0]) && Has(b, at, Expand(h, Literal(key))) && Has(b, after, gaps[1])
              && Has(b, i, gaps[0] + Expand(h, Literal(key)) + gaps[1])
              && Has(b, colon, [COLON]) && Has(b, colon + 1, Render(h, us, gaps[2..]))
  {
    hide Has, Render, Print, Expand, Literal;
    var k := Expand(h, Literal(key));
    RenderCons(h, Text(key), [Colon] + us, gaps);
    RenderCons(h, Colon, us, gaps[1..]);
    assert gaps[1..][1..] == gaps[2..] && gaps[1..][0] == gaps[1];
    PrintsText(h, key);
    PrintsColon(h);
    var rest := [COLON] + Render(h, us, gaps[2..]);
    Assoc(gaps[0], k, gaps[1] + rest);
    Assoc(gaps[0] + k, gaps[1], rest);
    HasSplit(b, i, gaps[0] + k + gaps[1], rest);
    HasSplit(b, i, gaps[0] + k, gaps[1]);
    HasSplit(b, i, gaps[0], k);
    HasSplit(b, i + |gaps[0]| + |k| + |gaps[1]|, [COLON], Render(h, us, gaps[2..]));
  }

  lemma PrintsColon(h: nat)
    requires h >= 1
    ensures Print(h, Colon) == [COLON]
  {
  }

  lemma GapKeepsUnescaped(b: seq<byte>, i: nat, gap: seq<byte>)
    requires Unescaped(b, i) && AllSpace(gap) && Has(b, i, gap)
    ensures Unescaped(b, i + |gap|)
  {
    hide Has;
    SpaceAt(b, i, gap);
  }

  lemma NameIsSilent(h: nat, before: seq<byte>, key: seq<byte>, after: seq<byte>)
    requires h >= 1 && AllSpace(before) && AllSpace(after) && Silent(key)
    ensures Silent(before + Expand(h, Literal(key)) + after)
  {
    hide Expand;
    ExpandIsSilent(h, Literal(key));
  }

  /** From a member's first gap to the end of its value: masked when its name is secret, scanned on when not. */
  lemma MemberStretch(b: seq<byte>, i: nat, n: nat, m: SecretDocument.Member, gaps: seq<seq<byte>>, judge: Judge)
    returns (hits: seq<Edit>)
    requires n <= 3 && IsBody(m.key) && WellFormed(m.value) && ScannableMember(m, judge) && Unescaped(b, i)
    requires |gaps| == |Tokens(m.value)| + 2 && AllGaps(gaps)
    requires Has(b, i, Render(Pow2(n), [Text(m.key)] + ([Colon] + Tokens(m.value)), gaps))
    requires var end := i + |Render(Pow2(n), [Text(m.key)] + ([Colon] + Tokens(m.value)), gaps)|;
      end < |b| ==> !InNumber(b[end])
    ensures |Tokens(MaskOne(m, judge).value)| == |Tokens(m.value)|
    ensures Stretch(b, i, hits, i + |Render(Pow2(n), [Text(m.key)] + ([Colon] + Tokens(m.value)), gaps)|,
                    Render(Pow2(n), [Text(m.key)] + ([Colon] + Tokens(MaskOne(m, judge).value)), gaps), judge)
    decreases m, 2
  {
    hide Has, Render, Print, Expand, Literal, Pow2, Tokens, WellFormed, Scannable, AllGaps, Stretch, Splice, InOrder,
      Yields, Mask, MaskNamed, Silent;
    var h, us := Pow2(n), Tokens(m.value);
    MemberAt(b, i, h, m.key, us, gaps);
    GapAt(gaps, 0);
    GapAt(gaps, 1);
    GapsSplit(gaps, 2);
    GapKeepsUnescaped(b, i, gaps[0]);
    var x := gaps[0] + Expand(h, Literal(m.key)) + gaps[1];
    var colon := i + |x|;
    var end := colon + 1 + |Render(h, us, gaps[2..])|;
    NameIsSilent(h, gaps[0], m.key, gaps[1]);
    SilentStretch(b, i, x, judge);
    hits := MemberYields(b, i + |gaps[0]|, n, m.key, gaps[1], m.value, gaps[2..], judge);
    var masked := Tokens(MaskOne(m, judge).value);
    if SecretName(m.key, judge) {
      SecretStretch(b, colon, hits, end, Render(h, masked, gaps[2..]), judge);
    } else {
      var more := TreeYields(b, colon + 1, n, m.value, gaps[2..], judge);
      ColonStretch(b, colon, judge);
      StretchThen(b, colon, [], colon + 1, [COLON], more, end, Render(h, masked, gaps[2..]), judge);
      hits := [] + more;
    }
    MemberAt(b, i, h, m.key, masked, gaps);
    StretchThen(b, i, [], colon, x, hits, end, [COLON] + Render(h, masked, gaps[2..]), judge);
    hits := [] + hits;
  }

  lemma SecretStretch(b: seq<byte>, colon: nat, hits: seq<Edit>, end: nat, printed: seq<byte>, judge: Judge)
    requires Has(b, colon, [COLON]) && colon + 1 <= end <= |b| && InOrder(hits, colon + 1, end)
    requires Splice(b, hits, colon + 1, end) == printed && Yields(b, colon, hits, end, judge)
    ensures Stretch(b, colon, hits, end, [COLON] + printed, judge)
  {
    hide Splice, Yields, InOrder;
    HasSlice(b, colon, [COLON]);
    SpliceFrom(b, hits, colon, colon + 1, end);
  }

  lemma ColonStretch(b: seq<byte>, colon: nat, judge: Judge)
    requires Has(b, colon, [COLON]) && Yields(b, colon, [], colon + 1, judge)
    ensures Stretch(b, colon, [], colon + 1, [COLON], judge)
  {
    hide Yields;
    HasSlice(b, colon, [COLON]);
    SpliceNothing(b, colon, colon + 1);
  }

  lemma {:induction false} MembersYield(b: seq<byte>, i: nat, n: nat, members: seq<SecretDocument.Member>,
      gaps: seq<seq<byte>>, judge: Judge) returns (hits: seq<Edit>)
    requires n <= 3 && Unescaped(b, i)
    requires forall k :: 0 <= k < |members| ==>
      IsBody(members[k].key) && WellFormed(members[k].value) && ScannableMember(members[k], judge)
    requires |gaps| == |MemberTokens(members)| && AllGaps(gaps)
    requires Has(b, i, Render(Pow2(n), MemberTokens(members), gaps))
    requires var end := i + |Render(Pow2(n), MemberTokens(members), gaps)|; end < |b| ==> !InNumber(b[end])
    ensures |MemberTokens(MaskMembers(members, judge))| == |gaps|
    ensures Stretch(b, i, hits, i + |Render(Pow2(n), MemberTokens(members), gaps)|,
                    Render(Pow2(n), MemberTokens(MaskMembers(members, judge)), gaps), judge)
    decreases members, 1
  {
    hide Stretch, Has, Print, Render, Pow2, AllGaps, Tokens, WellFormed, ScannableMember, Unescaped, MemberTokens;
    var h := Pow2(n);
    if members == [] {
      NoMemberTokens(members, judge);
      NoTokensAt(h, MemberTokens(members), gaps);
      NothingAt(b, i, judge);
      hits := [];
    } else {
      var m := members[0];
      assert m in members;
      var first, rest := [Text(m.key)] + ([Colon] + Tokens(m.value)), AfterFirstMember(members);
      var k := |first|;
      FirstPair(members, judge);
      RenderConcat(h, first, rest, gaps);
      GapsSplit(gaps, k);
      HasSplit(b, i, Render(h, first, gaps[..k]), Render(h, rest, gaps[k..]));
      var at := i + |Render(h, first, gaps[..k])|;
      var one := [Text(m.key)] + ([Colon] + Tokens(MaskOne(m, judge).value));
      if |members| == 1 {
        NoTokensAt(h, rest, gaps[k..]);
        assert Render(h, first, gaps[..k]) + [] == Render(h, first, gaps[..k]);
        assert gaps[..k] == gaps && one + [] == one && first + [] == first;
        hits := MemberStretch(b, i, n, m, gaps[..k], judge);
      } else {
        var others := gaps[k..][1..];
        RenderCons(h, Comma, MemberTokens(members[1..]), gaps[k..]);
        var comma := gaps[k] + Print(h, Comma);
        Assoc(gaps[k], Print(h, Comma), Render(h, MemberTokens(members[1..]), others));
        HasSplit(b, at, comma, Render(h, MemberTokens(members[1..]), others));
        GapAt(gaps, k);
        StartsAfter(b, at, h, gaps[k], Comma);
        PrintsPunctuation(h);
        EndsInByte(b, at, h, gaps[k], Comma, COMMA);
        hits := MemberStretch(b, i, n, m, gaps[..k], judge);
        TokenStretch(b, at, h, gaps[k], Comma, judge);
        GapsSplit(gaps[k..], 1);
        var more := MembersYield(b, at + |comma|, n, members[1..], others, judge);
        var end := i + |Render(h, MemberTokens(members), gaps)|;
        var masked := MaskMembers(members[1..], judge);
        RenderConcat(h, one, [Comma] + MemberTokens(masked), gaps);
        RenderCons(h, Comma, MemberTokens(masked), gaps[k..]);
        Assoc(gaps[k], Print(h, Comma), Render(h, MemberTokens(masked), others));
        assert at + |comma| + |Render(h, MemberTokens(members[1..]), others)| == end;
        StretchThen(b, at, [], at + |comma|, comma, more, end, Render(h, MemberTokens(masked), others), judge);
        StretchThen(b, i, hits, at, Render(h, one, gaps[..k]), [] + more, end,
                    comma + Render(h, MemberTokens(masked), others), judge);
        hits := hits + ([] + more);
      }
    }
  }

  lemma PrintsPunctuation(h: nat)
    requires h >= 1
    ensures Print(h, Comma) == [COMMA] && Print(h, Open(LBRACE)) == [LBRACE]
  {
  }

  lemma NothingAt(b: seq<byte>, i: nat, judge: Judge)
    requires Has(b, i, [])
    ensures Stretch(b, i, [], i, [], judge)
  {
    SilentStretch(b, i, [], judge);
  }

  lemma NoMemberTokens(members: seq<SecretDocument.Member>, judge: Judge)
    requires members == []
    ensures MemberTokens(members) == [] && MemberTokens(MaskMembers(members, judge)) == []
  {
  }

  /** The first member's tokens and those after it, before masking and after. */
  lemma FirstPair(members: seq<SecretDocument.Member>, judge: Judge)
    requires members != []
    ensures var m, masked := members[0], MaskMembers(members[1..], judge);
      && MemberTokens(members) == [Text(m.key)] + ([Colon] + Tokens(m.value)) + AfterFirstMember(members)
      && MemberTokens(MaskMembers(members, judge))
         == [Text(m.key)] + ([Colon] + Tokens(MaskOne(m, judge).value))
            + (if |members| == 1 then [] else [Comma] + MemberTokens(masked))
  {
    hide Tokens, MaskOne;
    MemberTokensAre(members);
    PairAssoc(members[0], AfterFirstMember(members));
    var r := MaskMembers(members, judge);
    assert r[0] == MaskOne(members[0], judge) && r[1..] == MaskMembers(members[1..], judge);
    KeyIsKept(members[0], judge);
    MemberTokensAre(r);
    PairAssoc(r[0], AfterFirstMember(r));
  }

  lemma KeyIsKept(m: SecretDocument.Member, judge: Judge)
    ensures MaskOne(m, judge).key == m.key
  {
  }

  lemma PairAssoc(m: SecretDocument.Member, rest: seq<Token>)
    ensures [Text(m.key)] + ([Colon] + (Tokens(m.value) + rest)) == [Text(m.key)] + ([Colon] + Tokens(m.value)) + rest
  {
    hide Tokens;
    Assoc([Colon], Tokens(m.value), rest);
    Assoc([Text(m.key)], [Colon] + Tokens(m.value), rest);
  }

  // ---- What leaves ----

  lemma {:induction false} MaskNamedIsWellFormed(j: Json, judge: Judge)
    requires WellFormed(j)
    ensures WellFormed(MaskNamed(j, judge))
    decreases j, 0
  {
    match j
    case Arr(items) => MaskedItemsAreWellFormed(items, judge);
    case Obj(members) => MaskedMembersAreWellFormed(members, judge);
    case _ =>
  }

  lemma {:induction false} MaskedItemsAreWellFormed(items: seq<Json>, judge: Judge)
    requires forall i :: 0 <= i < |items| ==> WellFormed(items[i])
    ensures forall i :: 0 <= i < |items| ==> WellFormed(MaskItems(items, judge)[i])
    decreases items, 1
  {
    if items != [] {
      MaskNamedIsWellFormed(items[0], judge);
      MaskedItemsAreWellFormed(items[1..], judge);
    }
  }

  lemma {:induction false} MaskedMembersAreWellFormed(members: seq<SecretDocument.Member>, judge: Judge)
    requires forall i :: 0 <= i < |members| ==> IsBody(members[i].key) && WellFormed(members[i].value)
    ensures forall i :: 0 <= i < |members| ==>
      var m := MaskMembers(members, judge)[i]; IsBody(m.key) && WellFormed(m.value)
    decreases members, 1
  {
    if members != [] {
      assert members[0] in members;
      MaskNamedIsWellFormed(members[0].value, judge);
      MaskIsWellFormed(members[0].value);
      MaskedMembersAreWellFormed(members[1..], judge);
    }
  }

  /**
   A JSON document of any shape, printed `n` strings deep with any white space: making the scan's hits prints the
   same document with the values under secret names masked, and nothing else changed.
   */
  lemma DocumentIsMaskedByName(n: nat, j: Json, gaps: seq<seq<byte>>, judge: Judge)
    requires n <= 3 && WellFormed(j) && Scannable(j, judge) && |gaps| == |Tokens(j)| && AllGaps(gaps)
    ensures |Tokens(MaskNamed(j, judge))| == |gaps|
    ensures var b := Render(Pow2(n), Tokens(j), gaps);
      && InOrder(ScanFrom(b, 0, judge), 0, |b|)
      && Splice(b, ScanFrom(b, 0, judge), 0, |b|) == Render(Pow2(n), Tokens(MaskNamed(j, judge)), gaps)
  {
    hide Render, Tokens, WellFormed, Scannable, AllGaps, Splice, InOrder, MaskNamed, Has, ScanFrom;
    var b := Render(Pow2(n), Tokens(j), gaps);
    assert b[0..0 + |b|] == b;
    HasSlice(b, 0, b);
    var hits := TreeYields(b, 0, n, j, gaps, judge);
    NothingPastEnd(b, judge);
    assert hits + [] == hits;
  }

  lemma NothingPastEnd(b: seq<byte>, judge: Judge)
    ensures ScanFrom(b, |b|, judge) == []
  {
  }

  /** Read back at its own depth, the masked object or list is the document with its named secrets masked. */
  lemma MaskedDocumentReadsBack(n: nat, j: Json, gaps: seq<seq<byte>>, judge: Judge)
    requires n <= 3 && WellFormed(j) && (j.Arr? || j.Obj?) && Scannable(j, judge)
    requires |gaps| == |Tokens(j)| && AllGaps(gaps)
    ensures var b := Render(Pow2(n), Tokens(j), gaps);
      && InOrder(ScanFrom(b, 0, judge), 0, |b|)
      && ReadValue(Unnest(n, b)) == Some((j, []))
      && ReadValue(Unnest(n, Splice(b, ScanFrom(b, 0, judge), 0, |b|))) == Some((MaskNamed(j, judge), []))
  {
    hide Render, Tokens, WellFormed, Scannable, AllGaps, Splice, InOrder, ScanFrom, ReadValue, Unnest;
    DocumentIsMaskedByName(n, j, gaps, judge);
    MaskNamedIsWellFormed(j, judge);
    ContainerReads(n, j, gaps);
    ContainerReads(n, MaskNamed(j, judge), gaps);
  }

  /**
   One member anywhere in a text, its name of plain bytes: from its colon on, a secret name has exactly the leaves
   of its value hit, and any other nothing. When neither `=` nor a colon comes before, the scan gets there.
   */
  lemma WrittenMember(pre: seq<byte>, n: nat, name: seq<byte>, gap: seq<byte>, j: Json, gaps: seq<seq<byte>>,
      post: seq<byte>, judge: Judge) returns (hits: seq<Edit>)
    requires n <= 3 && PlainName(name, QUOTE) && WellFormed(j) && Unescaped(pre, |pre|)
    requires AllSpace(gap) && |gaps| == |Tokens(j)| && AllGaps(gaps) && (post != [] ==> !InNumber(post[0]))
    ensures |gaps| == |Tokens(Mask(j))|
    ensures var value := Render(Pow2(n), Tokens(j), gaps);
      var b := pre + Nest(n, Literal(name)) + gap + [COLON] + value + post;
      var colon := |pre + Nest(n, Literal(name)) + gap|;
      var end := colon + 1 + |value|;
      && (Silent(pre) && Silent(name) ==> ScanFrom(b, 0, judge) == ScanFrom(b, colon, judge))
      && if SecretName(name, judge) then
           && ScanFrom(b, colon, judge) == hits + ScanFrom(b, end, judge) && InOrder(hits, colon + 1, end)
           && Splice(b, hits, colon + 1, end) == Render(Pow2(n), Tokens(Mask(j)), gaps)
         else ScanFrom(b, colon, judge) == ScanFrom(b, colon + 1, judge)
  {
    hide Render, Tokens, WellFormed, AllGaps, Splice, InOrder, ScanFrom, Mask, Nest, Expand, Literal, Has, Silent,
      PlainName;
    var h, value := Pow2(n), Render(Pow2(n), Tokens(j), gaps);
    var key := Nest(n, Literal(name));
    NestIsExpand(n, Literal(name));
    var b := pre + key + gap + [COLON] + value + post;
    PiecesStand(pre, key, gap, [COLON], value, post);
    var at, colon := |pre|, |pre + key + gap|;
    assert at + |key| + |gap| == colon;
    if post != [] {
      assert b[colon + 1 + |value|] == post[0];
    }
    assert pre != [] ==> b[at - 1] == pre[at - 1];
    hits := MemberYields(b, at, n, name, gap, j, gaps, judge);
    if Silent(pre) && Silent(name) {
      NameIsSilent(h, [], name, gap);
      assert [] + key + gap == key + gap;
      SilentConcat(pre, key + gap);
      assert pre + (key + gap) == pre + key + gap;
      SilentScan(b, 0, pre + key + gap, judge);
      NothingFound(b, 0, colon, judge);
    }
    if !SecretName(name, judge) {
      NothingFound(b, colon, colon + 1, judge);
    }
  }

  lemma NothingFound(b: seq<byte>, i: nat, k: nat, judge: Judge)
    requires Yields(b, i, [], k, judge)
    ensures ScanFrom(b, i, judge) == ScanFrom(b, k, judge)
  {
    assert [] + ScanFrom(b, k, judge) == ScanFrom(b, k, judge);
  }

  lemma PiecesStand(pre: seq<byte>, key: seq<byte>, gap: seq<byte>, colon: seq<byte>, value: seq<byte>, post: seq<byte>)
    ensures var b := pre + key + gap + colon + value + post;
      && Has(b, 0, pre + key + gap) && Has(b, |pre|, key) && Has(b, |pre| + |key|, gap)
      && Has(b, |pre + key + gap|, colon) && Has(b, |pre + key + gap + colon|, value)
  {
    hide Has;
    var b := pre + key + gap + colon + value + post;
    assert b[0..0 + |pre + key + gap|] == pre + key + gap;
    assert b[|pre|..|pre| + |key|] == key && b[|pre| + |key|..|pre| + |key| + |gap|] == gap;
    assert b[|pre + key + gap|..|pre + key + gap| + |colon|] == colon;
    assert b[|pre + key + gap + colon|..|pre + key + gap + colon| + |value|] == value;
    HasSlice(b, 0, pre + key + gap);
    HasSlice(b, |pre|, key);
    HasSlice(b, |pre| + |key|, gap);
    HasSlice(b, |pre + key + gap|, colon);
    HasSlice(b, |pre + key + gap + colon|, value);
  }
}
