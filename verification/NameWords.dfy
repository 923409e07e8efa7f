/** The words of a name, which is what the name rules compare: the same for every way of writing them. */
module NameWords {
  import opened Characters

  function ToUpper(c: char): char {
    if IsLower(c) then c - 'a' + 'A' else c
  }

  function ToLower(c: char): char {
    if IsUpper(c) then c - 'A' + 'a' else c
  }

  predicate IsHex(c: char) {
    IsDigit(c) || 'a' <= c <= 'f' || 'A' <= c <= 'F'
  }

  function HexValue(c: char): (v: nat)
    requires IsHex(c)
    ensures v < 16
  {
    if IsDigit(c) then (c - '0') as nat else if c >= 'a' then (c - 'a') as nat + 10 else (c - 'A') as nat + 10
  }

  /** What Unicode says of a character; only its answers for ASCII are fixed here. */
  datatype Unicode = Unicode(isAlphanumeric: char -> bool, lowered: char -> string)

  ghost predicate AsciiRule(u: Unicode) {
    forall c :: c < 128 as char ==>
      && (u.isAlphanumeric(c) <==> IsLower(c) || IsUpper(c) || IsDigit(c))
      && u.lowered(c) == [ToLower(c)]
  }

  function DecodeEscapes(s: string): string
    decreases |s|
  {
    if s == [] then []
    else if s[0] == '%' && |s| > 2 && IsHex(s[1]) && IsHex(s[2]) then
      [(16 * HexValue(s[1]) + HexValue(s[2])) as char] + DecodeEscapes(s[3..])
    else [s[0]] + DecodeEscapes(s[1..])
  }

  /** Trailing digits are a version or a counter, not part of what the word names. */
  function TrimDigits(w: string): string {
    if w != [] && IsDigit(w[|w| - 1]) then TrimDigits(w[..|w| - 1]) else w
  }

  function Flush(word: string): seq<string> {
    if TrimDigits(word) == [] then [] else [TrimDigits(word)]
  }

  /** A capital begins a word after a small letter or a digit, and after a capital when a small letter follows. */
  predicate StartsWord(cs: string, i: nat)
    requires 0 < i < |cs|
  {
    IsUpper(cs[i])
    && (IsLower(cs[i - 1]) || IsDigit(cs[i - 1]) || (IsUpper(cs[i - 1]) && i + 1 < |cs| && IsLower(cs[i + 1])))
  }

  /** The words from `i` on, with the letters of an unfinished one before it. */
  function WordsFrom(cs: string, i: nat, cur: string, u: Unicode): seq<string>
    requires i <= |cs| && (cur != [] ==> i > 0)
    decreases |cs| - i
  {
    if i == |cs| then Flush(cur)
    else if !u.isAlphanumeric(cs[i]) then Flush(cur) + WordsFrom(cs, i + 1, [], u)
    else if cur != [] && StartsWord(cs, i) then Flush(cur) + WordsFrom(cs, i + 1, u.lowered(cs[i]), u)
    else WordsFrom(cs, i + 1, cur + u.lowered(cs[i]), u)
  }

  method DecodeName(name: string) returns (chars: string)
    ensures chars == DecodeEscapes(name)
  {
    hide IsHex, HexValue, DecodeEscapes;
    chars := [];
    var i: nat := 0;
    assert name[0..] == name && [] + DecodeEscapes(name) == DecodeEscapes(name);
    while i < |name|
      invariant i <= |name|
      invariant DecodeEscapes(name) == chars + DecodeEscapes(name[i..])
    {
      var c := name[i];
      if c == '%' && i + 2 < |name| && IsHex(name[i + 1]) && IsHex(name[i + 2]) {
        var x := (16 * HexValue(name[i + 1]) + HexValue(name[i + 2])) as char;
        EscapeStep(name, i);
        Extended(chars, x, DecodeEscapes(name[i + 3..]));
        chars := chars + [x];
        i := i + 3;
      } else {
        PlainStep(name, i);
        Extended(chars, c, DecodeEscapes(name[i + 1..]));
        chars := chars + [c];
        i := i + 1;
      }
    }
    NothingToDecode(name[i..]);
    assert chars + [] == chars;
  }

  lemma EscapeStep(name: string, i: nat)
    requires i + 2 < |name| && name[i] == '%' && IsHex(name[i + 1]) && IsHex(name[i + 2])
    ensures DecodeEscapes(name[i..])
      == [(16 * HexValue(name[i + 1]) + HexValue(name[i + 2])) as char] + DecodeEscapes(name[i + 3..])
  {
    hide IsHex, HexValue;
    assert name[i..][3..] == name[i + 3..];
  }

  lemma PlainStep(name: string, i: nat)
    requires i < |name| && !(name[i] == '%' && i + 2 < |name| && IsHex(name[i + 1]) && IsHex(name[i + 2]))
    ensures DecodeEscapes(name[i..]) == [name[i]] + DecodeEscapes(name[i + 1..])
  {
    hide IsHex, HexValue;
    assert name[i..][1..] == name[i + 1..];
  }

  lemma NothingToDecode(s: string)
    requires s == []
    ensures DecodeEscapes(s) == []
  {
  }

  lemma Extended(done: string, c: char, rest: string)
    ensures done + ([c] + rest) == done + [c] + rest
  {
  }

  method Words(name: string, u: Unicode) returns (out: seq<string>)
    ensures out == WordsFrom(DecodeEscapes(name), 0, [], u)
  {
    hide Flush, StartsWord, DecodeEscapes;
    var chars := DecodeName(name);
    out := [];
    var cur := [];
    var k: nat := 0;
    assert [] + WordsFrom(chars, 0, [], u) == WordsFrom(chars, 0, [], u);
    while k < |chars|
      invariant k <= |chars| && (cur != [] ==> k > 0)
      invariant WordsFrom(chars, 0, [], u) == out + WordsFrom(chars, k, cur, u)
    {
      var c := chars[k];
      if !u.isAlphanumeric(c) {
        Flushed(out, Flush(cur), WordsFrom(chars, k + 1, [], u));
        out := out + Flush(cur);
        cur := [];
      } else if cur != [] && StartsWord(chars, k) {
        Flushed(out, Flush(cur), WordsFrom(chars, k + 1, u.lowered(c), u));
        out := out + Flush(cur);
        cur := u.lowered(c);
      } else {
        cur := cur + u.lowered(c);
      }
      k := k + 1;
    }
    out := out + Flush(cur);
  }

  lemma Flushed(out: seq<string>, word: seq<string>, rest: seq<string>)
    ensures out + (word + rest) == out + word + rest
  {
  }

  // ----- Ways of writing the same words -----

  predicate IsWord(w: string) {
    w != [] && forall i :: 0 <= i < |w| ==> IsLower(w[i])
  }

  function Upper(w: string): (r: string)
    ensures |r| == |w| && forall i :: 0 <= i < |w| ==> r[i] == ToUpper(w[i])
  {
    if w == [] then [] else [ToUpper(w[0])] + Upper(w[1..])
  }

  function Capitalised(w: string): string {
    if w == [] then [] else [ToUpper(w[0])] + w[1..]
  }

  /** `password`, `PASSWORD` or `Password`. */
  predicate Writes(piece: string, w: string) {
    IsWord(w) && (piece == w || piece == Upper(w) || piece == Capitalised(w))
  }

  predicate IsLetter(c: char) {
    IsLower(c) || IsUpper(c)
  }

  /** `cs[i..k]` is letters, and `w` the same letters made small. */
  predicate Spells(cs: string, i: nat, k: nat, w: string) {
    && i <= k <= |cs| && |w| == k - i
    && (forall j :: i <= j < k ==> IsLetter(cs[j]))
    && (forall j :: i <= j < k ==> w[j - i] == ToLower(cs[j]))
  }

  /** No word starts strictly between two positions. */
  predicate NoStarts(cs: string, i: nat, k: nat)
    requires k <= |cs|
  {
    forall j :: i < j < k ==> !StartsWord(cs, j)
  }

  /** Letters with no word start among them join the unfinished word. */
  lemma {:induction false} LettersJoin(cs: string, i: nat, k: nat, w: string, cur: string, u: Unicode)
    requires AsciiRule(u) && Spells(cs, i, k, w) && NoStarts(cs, i, k)
    requires cur != [] ==> i > 0 && (i < k ==> !StartsWord(cs, i))
    ensures (cur + w != [] ==> k > 0) && WordsFrom(cs, i, cur, u) == WordsFrom(cs, k, cur + w, u)
    decreases k - i
  {
    hide StartsWord, Flush, ToLower;
    if i == k {
      assert cur + w == cur;
    } else {
      assert IsLetter(cs[i]) && w[0] == ToLower(cs[i]);
      assert u.lowered(cs[i]) == [w[0]] && u.isAlphanumeric(cs[i]);
      LettersJoin(cs, i + 1, k, w[1..], cur + [w[0]], u);
      assert cur + [w[0]] + w[1..] == cur + w;
    }
  }

  lemma WordIsFlushed(w: string)
    requires IsWord(w)
    ensures Flush(w) == [w]
  {
    assert IsLower(w[|w| - 1]);
  }

  /** Inside a written word no capital follows a small letter, or stands between a capital and a small one. */
  lemma WrittenHolds(piece: string, w: string)
    requires Writes(piece, w)
    ensures |piece| == |w| && piece != []
    ensures forall j :: 0 <= j < |w| ==> IsLetter(piece[j])
    ensures forall j :: 0 <= j < |w| ==> w[j] == ToLower(piece[j])
    ensures forall j :: 0 < j < |w| && IsUpper(piece[j]) ==> IsUpper(piece[j - 1])
    ensures forall j :: 1 < j < |w| && IsUpper(piece[j - 1]) ==> !IsLower(piece[j])
  {
    hide Writes, Upper;
    WritesIs(piece, w);
    assert forall j :: 0 <= j < |w| ==> IsLower(w[j]);
    if piece == w {
    } else if piece == Upper(w) {
      assert forall j :: 0 <= j < |w| ==> piece[j] == ToUpper(w[j]);
    } else {
      assert forall j :: 0 < j < |w| ==> piece[j] == w[j];
    }
  }

  lemma WritesIs(piece: string, w: string)
    requires Writes(piece, w)
    ensures IsWord(w) && (piece == w || piece == Upper(w) || piece == Capitalised(w))
  {
  }

  lemma NoStartInside(pre: string, piece: string, post: string, w: string, j: nat, u: Unicode)
    requires AsciiRule(u) && Writes(piece, w) && j < |w| == |piece|
    requires post != [] ==> !u.isAlphanumeric(post[0]) && post[0] < 128 as char
    ensures var cs := pre + piece + post;
      IsLetter(cs[|pre| + j]) && w[j] == ToLower(cs[|pre| + j]) && (j > 0 ==> !StartsWord(cs, |pre| + j))
  {
    hide AsciiRule, Writes, IsLetter, IsUpper, IsLower, IsDigit, ToLower;
    var cs, i := pre + piece + post, |pre|;
    WrittenHolds(piece, w);
    assert cs[i + j] == piece[j];
    if j > 0 {
      assert cs[i + j - 1] == piece[j - 1];
      Exclusive(piece[j - 1]);
      if j + 1 < |w| {
        assert cs[i + j + 1] == piece[j + 1];
      } else if post != [] {
        assert cs[i + j + 1] == post[0];
        SeparatorIsNotLower(post[0], u);
      }
    }
  }

  /** One written word with no letter or digit on either side is one word. */
  lemma PieceReads(pre: string, piece: string, post: string, w: string, u: Unicode)
    requires AsciiRule(u) && Writes(piece, w)
    requires post != [] ==> !u.isAlphanumeric(post[0]) && post[0] < 128 as char
    ensures w != [] && |piece| == |w|
    ensures WordsFrom(pre + piece + post, |pre|, [], u) == WordsFrom(pre + piece + post, |pre| + |w|, w, u)
  {
    hide *;
    var cs := pre + piece + post;
    WrittenHolds(piece, w);
    PieceSpells(pre, piece, post, w, u);
    LettersJoin(cs, |pre|, |pre| + |w|, w, [], u);
    assert [] + w == w;
  }

  lemma PieceSpells(pre: string, piece: string, post: string, w: string, u: Unicode)
    requires AsciiRule(u) && Writes(piece, w) && |piece| == |w|
    requires post != [] ==> !u.isAlphanumeric(post[0]) && post[0] < 128 as char
    ensures Spells(pre + piece + post, |pre|, |pre| + |w|, w)
    ensures NoStarts(pre + piece + post, |pre|, |pre| + |w|)
  {
    hide AsciiRule, Writes, StartsWord, IsLetter, ToLower;
    var cs, i := pre + piece + post, |pre|;
    forall j | i <= j < i + |w|
      ensures IsLetter(cs[j]) && w[j - i] == ToLower(cs[j]) && (j > i ==> !StartsWord(cs, j))
    {
      NoStartInside(pre, piece, post, w, j - i, u);
    }
  }

  lemma Exclusive(c: char)
    ensures IsUpper(c) ==> !IsLower(c) && !IsDigit(c)
  {
  }

  lemma SeparatorIsNotLower(c: char, u: Unicode)
    requires AsciiRule(u) && c < 128 as char && !u.isAlphanumeric(c)
    ensures !IsLower(c)
  {
  }

  /** Written pieces with a separator before each but the first. */
  function Joined(pieces: seq<string>, seps: string): string
    requires |seps| == |pieces|
  {
    if pieces == [] then [] else [seps[0]] + pieces[0] + Joined(pieces[1..], seps[1..])
  }

  predicate AreSeparators(seps: string, u: Unicode) {
    forall c :: c in seps ==> c < 128 as char && !u.isAlphanumeric(c)
  }

  predicate AllWritten(pieces: seq<string>, ws: seq<string>) {
    |pieces| == |ws| && forall i :: 0 <= i < |ws| ==> Writes(pieces[i], ws[i])
  }

  lemma {:induction false} TailReads(pre: string, cur: string, pieces: seq<string>, seps: string,
      ws: seq<string>, u: Unicode)
    requires AsciiRule(u) && AllWritten(pieces, ws) && |seps| == |pieces| && AreSeparators(seps, u)
    requires IsWord(cur) && pre != []
    ensures WordsFrom(pre + Joined(pieces, seps), |pre|, cur, u) == [cur] + ws
    decreases |ws|
  {
    hide Writes, Flush, StartsWord, AsciiRule, IsWord;
    WordIsFlushed(cur);
    if ws == [] {
      assert pre + [] == pre;
      assert [cur] + ws == [cur];
    } else {
      var tail := Joined(pieces[1..], seps[1..]);
      var cs := pre + Joined(pieces, seps);
      assert cs[|pre|] == seps[0] && seps[0] in seps;
      var lead := pre + [seps[0]];
      assert cs == lead + pieces[0] + tail;
      assert Writes(pieces[0], ws[0]);
      WrittenIsWord(pieces[0], ws[0]);
      assert tail != [] ==> tail[0] == seps[1] && seps[1] in seps;
      PieceReads(lead, pieces[0], tail, ws[0], u);
      assert AreSeparators(seps[1..], u) by {
        assert forall c :: c in seps[1..] ==> c in seps;
      }
      assert AllWritten(pieces[1..], ws[1..]);
      TailReads(lead + pieces[0], ws[0], pieces[1..], seps[1..], ws[1..], u);
      assert [ws[0]] + ws[1..] == ws;
    }
  }

  lemma WrittenIsWord(piece: string, w: string)
    requires Writes(piece, w)
    ensures IsWord(w) && |piece| == |w| && piece != []
  {
  }

  /** `api_key`, `API-KEY` and `Api.Key` read as the same words, whatever the separators. */
  lemma SeparatedNamesRead(first: string, w: string, pieces: seq<string>, seps: string, ws: seq<string>, u: Unicode)
    requires AsciiRule(u) && Writes(first, w)
    requires AllWritten(pieces, ws) && |seps| == |pieces| && AreSeparators(seps, u)
    ensures WordsFrom(first + Joined(pieces, seps), 0, [], u) == [w] + ws
  {
    hide Writes, AllWritten, WordsFrom;
    var tail := Joined(pieces, seps);
    WrittenIsWord(first, w);
    if |pieces| > 0 {
      assert tail[0] == seps[0] && seps[0] in seps;
    }
    assert pieces == [] ==> tail == [];
    assert [] + first + tail == first + tail;
    PieceReads([], first, tail, w, u);
    TailReads(first, w, pieces, seps, ws, u);
  }

  // ----- camelCase -----

  /** The words run together, each with a capital in front. */
  function Camel(ws: seq<string>): string {
    if ws == [] then [] else Capitalised(ws[0]) + Camel(ws[1..])
  }

  /** Two one-letter words in a row, which nothing in camelCase tells apart. */
  predicate Adjoining(ws: seq<string>) {
    |ws| >= 2 && ((|ws[0]| == 1 && |ws[1]| == 1) || Adjoining(ws[1..]))
  }

  predicate EndsInLetter(s: string) {
    s != [] && IsLetter(s[|s| - 1])
  }

  /** Whether the capital of the next word begins a word after text that ends in a letter. */
  predicate Shows(pre: string, w: string)
    requires pre != []
  {
    IsLower(pre[|pre| - 1]) || |w| >= 2
  }

  lemma CapitalHolds(w: string)
    requires IsWord(w)
    ensures Capitalised(w) != [] && |Capitalised(w)| == |w| && IsUpper(Capitalised(w)[0])
    ensures ToLower(Capitalised(w)[0]) == w[0]
    ensures forall j :: 0 < j < |w| ==> Capitalised(w)[j] == w[j] && IsLower(w[j])
  {
    assert IsLower(w[0]);
  }

  lemma CamelStarts(ws: seq<string>)
    requires forall i :: 0 <= i < |ws| ==> IsWord(ws[i])
    ensures Camel(ws) != [] ==> !IsLower(Camel(ws)[0])
  {
    if ws != [] {
      CapitalHolds(ws[0]);
    }
  }

  lemma CapitalStarts(pre: string, w: string, post: string)
    requires EndsInLetter(pre) && IsWord(w) && (post != [] ==> !IsLower(post[0]))
    ensures StartsWord(pre + Capitalised(w) + post, |pre|) <==> Shows(pre, w)
  {
    hide Capitalised, IsWord;
    CapitalHolds(w);
    var cs, p := pre + Capitalised(w) + post, |pre|;
    assert cs[p] == Capitalised(w)[0] && cs[p - 1] == pre[p - 1];
    if |w| >= 2 {
      assert cs[p + 1] == Capitalised(w)[1];
    } else if post != [] {
      assert cs[p + 1] == post[0];
    }
  }

  lemma RestJoins(pre: string, w: string, post: string, cur: string, u: Unicode)
    requires AsciiRule(u) && IsWord(w)
    ensures w != [] && |Capitalised(w)| == |w|
    ensures var cs := pre + Capitalised(w) + post;
      WordsFrom(cs, |pre| + 1, cur + [w[0]], u) == WordsFrom(cs, |pre| + |w|, cur + w, u)
  {
    hide *;
    var cs, p := pre + Capitalised(w) + post, |pre|;
    RestSpells(pre, w, post);
    LettersJoin(cs, p + 1, p + |w|, w[1..], cur + [w[0]], u);
    assert cur + [w[0]] + w[1..] == cur + w;
  }

  lemma RestSpells(pre: string, w: string, post: string)
    requires IsWord(w)
    ensures w != [] && |Capitalised(w)| == |w|
    ensures var cs, p := pre + Capitalised(w) + post, |pre|;
      && Spells(cs, p + 1, p + |w|, w[1..]) && NoStarts(cs, p + 1, p + |w|)
      && (|w| > 1 ==> !StartsWord(cs, p + 1))
  {
    hide Capitalised, IsWord;
    CapitalHolds(w);
    var cs, p := pre + Capitalised(w) + post, |pre|;
    forall j | p + 1 <= j < p + |w|
      ensures IsLower(cs[j]) && w[1..][j - p - 1] == cs[j]
    {
      assert cs[j] == Capitalised(w)[j - p];
    }
  }

  /** Reading one capitalised word: it ends the unfinished one, or runs on from it. */
  lemma CamelStep(pre: string, cur: string, w: string, post: string, u: Unicode)
    requires AsciiRule(u) && EndsInLetter(pre) && IsWord(cur) && IsWord(w) && (post != [] ==> !IsLower(post[0]))
    ensures var cs := pre + Capitalised(w) + post;
      WordsFrom(cs, |pre|, cur, u)
        == if Shows(pre, w) then [cur] + WordsFrom(cs, |pre| + |w|, w, u)
           else WordsFrom(cs, |pre| + |w|, cur + w, u)
  {
    hide StartsWord, Shows, Capitalised, IsWord, Flush, EndsInLetter, ToLower;
    CapitalHolds(w);
    CapitalStarts(pre, w, post);
    WordIsFlushed(cur);
    var cs, p := pre + Capitalised(w) + post, |pre|;
    assert cs[p] == Capitalised(w)[0];
    assert u.isAlphanumeric(cs[p]) && u.lowered(cs[p]) == [w[0]];
    RestJoins(pre, w, post, [], u);
    RestJoins(pre, w, post, cur, u);
    assert [] + w == w && [] + [w[0]] == [w[0]];
    assert cur != [] by {
      WordIsSomething(cur);
    }
  }

  lemma WordIsSomething(w: string)
    requires IsWord(w)
    ensures w != []
  {
  }

  lemma WordsConcat(a: string, b: string)
    requires IsWord(a) && IsWord(b)
    ensures IsWord(a + b)
  {
  }

  lemma CapitalEnds(pre: string, w: string)
    requires IsWord(w)
    ensures EndsInLetter(pre + Capitalised(w))
    ensures IsLower((pre + Capitalised(w))[|pre + Capitalised(w)| - 1]) <==> |w| >= 2
  {
    hide Capitalised, IsWord;
    CapitalHolds(w);
    var s := pre + Capitalised(w);
    assert s[|s| - 1] == Capitalised(w)[|w| - 1];
  }

  lemma LastWord(pre: string, cur: string, u: Unicode)
    requires IsWord(cur) && EndsInLetter(pre)
    ensures WordsFrom(pre, |pre|, cur, u) == [cur]
  {
    WordIsFlushed(cur);
  }

  /** The words come back exactly when every capital shows; otherwise there are too few. */
  lemma {:induction false} CamelReads(pre: string, cur: string, ws: seq<string>, u: Unicode)
    requires AsciiRule(u) && EndsInLetter(pre) && IsWord(cur)
    requires forall i :: 0 <= i < |ws| ==> IsWord(ws[i])
    ensures var out := WordsFrom(pre + Camel(ws), |pre|, cur, u);
      && |out| <= 1 + |ws|
      && if (ws == [] || Shows(pre, ws[0])) && !Adjoining(ws) then out == [cur] + ws else |out| <= |ws|
    decreases |ws|
  {
    hide IsWord, Capitalised, WordsFrom, Flush, IsLetter, IsLower, AsciiRule;
    if ws == [] {
      LastWord(pre, cur, u);
      assert pre + Camel(ws) == pre;
      assert [cur] + ws == [cur];
    } else {
      var w, post := ws[0], Camel(ws[1..]);
      var next := pre + Capitalised(w);
      assert pre + Camel(ws) == next + post;
      CamelStarts(ws[1..]);
      CamelStep(pre, cur, w, post, u);
      CapitalHolds(w);
      CapitalEnds(pre, w);
      WordsConcat(cur, w);
      if |ws| > 1 {
        WordIsSomething(ws[1]);
      }
      CamelReads(next, w, ws[1..], u);
      CamelReads(next, cur + w, ws[1..], u);
      assert [cur] + ([w] + ws[1..]) == [cur] + ws;
    }
  }

  /** A camelCase name reads as its words exactly when no two one-letter words follow each other after
      the first: `apiKey` does, `planBC` does not. */
  lemma CamelNamesRead(w: string, ws: seq<string>, u: Unicode)
    requires AsciiRule(u) && IsWord(w) && forall i :: 0 <= i < |ws| ==> IsWord(ws[i])
    ensures WordsFrom(w + Camel(ws), 0, [], u) == [w] + ws <==> !Adjoining(ws)
  {
    hide WordsFrom, Flush, StartsWord, AsciiRule;
    assert IsLower(w[|w| - 1]) && EndsInLetter(w);
    var cs := w + Camel(ws);
    forall j | 0 <= j < |w| ensures IsLower(cs[j]) && w[j] == cs[j] {
      assert IsLower(w[j]);
    }
    assert NoStarts(cs, 0, |w|) by {
      SmallLettersStartNothing(cs, |w|);
    }
    LettersJoin(cs, 0, |w|, w, [], u);
    assert [] + w == w;
    CamelReads(w, w, ws, u);
  }

  lemma SmallLettersStartNothing(cs: string, k: nat)
    requires k <= |cs| && forall j :: 0 <= j < k ==> IsLower(cs[j])
    ensures NoStarts(cs, 0, k)
  {
  }
}
