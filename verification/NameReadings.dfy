/** A name behind a backslash, read with and without the escape its first letter may belong to. */
module NameReadings {
  import opened Characters
  import opened NameWords

  function WordsOf(name: string, u: Unicode): seq<string> {
    WordsFrom(DecodeEscapes(name), 0, [], u)
  }

  /** The escape at the front is the tail of one that JSON writes: one letter, or a `u` and four digits. */
  predicate EscapeTail(name: string, after: nat) {
    && after < |name|
    && ((after == 1 && name[0] in {'b', 'f', 'n', 'r', 't'}) || (after == 5 && name[0] == 'u'))
  }

  /** Whether the escape wins when both readings name a secret; `run` backslashes stand before the name. */
  predicate ReadsAsEscape(name: string, after: nat, run: nat, quoted: bool)
    requires EscapeTail(name, after)
  {
    || after == 5 || !(IsLower(name[after]) || IsDigit(name[after]))
    || (quoted && (run % 2 == 1 || name[0] !in {'b', 'f'}))
  }

  // ----- A letter in front joins the first word -----

  lemma {:induction false} TrimBehind(c: char, w: string)
    requires !IsDigit(c)
    ensures TrimDigits([c] + w) == [c] + TrimDigits(w)
    decreases |w|
  {
    var cw := [c] + w;
    assert cw[|cw| - 1] == if w == [] then c else w[|w| - 1];
    if w != [] && IsDigit(w[|w| - 1]) {
      TrimBehind(c, w[..|w| - 1]);
      assert cw[..|cw| - 1] == [c] + w[..|w| - 1];
    }
  }

  /** A word that begins with a letter is never trimmed away. */
  lemma {:induction false} LetterStays(w: string)
    requires w != [] && !IsDigit(w[0])
    ensures TrimDigits(w) != []
    decreases |w|
  {
    if IsDigit(w[|w| - 1]) {
      LetterStays(w[..|w| - 1]);
    }
  }

  lemma FlushBehind(c: char, w: string)
    requires !IsDigit(c) && w != [] && !IsDigit(w[0])
    ensures |Flush(w)| == 1 && Flush([c] + w) == [[c] + Flush(w)[0]]
  {
    TrimBehind(c, w);
    LetterStays(w);
  }

  /** Past its first character, a text reads the same with one more in front of it. */
  lemma {:induction false} RestReadsSame(c: char, cs: string, i: nat, cur: string, u: Unicode)
    requires 0 < i <= |cs|
    ensures WordsFrom([c] + cs, i + 1, cur, u) == WordsFrom(cs, i, cur, u)
    decreases |cs| - i
  {
    hide Flush, IsUpper, IsLower, IsDigit;
    if i < |cs| {
      var ccs := [c] + cs;
      assert ccs[i + 1] == cs[i] && ccs[i] == cs[i - 1];
      assert i + 1 < |cs| ==> ccs[i + 2] == cs[i + 1];
      RestReadsSame(c, cs, i + 1, [], u);
      RestReadsSame(c, cs, i + 1, u.lowered(cs[i]), u);
      RestReadsSame(c, cs, i + 1, cur + u.lowered(cs[i]), u);
    }
  }

  function InFront(c: char, ws: seq<string>): seq<string> {
    if ws == [] then [] else [[c] + ws[0]] + ws[1..]
  }

  lemma InFrontOfFlushed(c: char, w: string, rest: seq<string>)
    requires !IsDigit(c) && w != [] && !IsDigit(w[0])
    ensures Flush([c] + w) + rest == InFront(c, Flush(w) + rest)
  {
    FlushBehind(c, w);
    assert (Flush(w) + rest)[1..] == rest;
  }

  /** The unfinished first word carries the letter along to wherever it ends. */
  lemma {:induction false} FirstWordGrows(c: char, cs: string, i: nat, cur: string, u: Unicode)
    requires !IsDigit(c) && 0 < i <= |cs| && cur != [] && !IsDigit(cur[0])
    ensures WordsFrom([c] + cs, i + 1, [c] + cur, u) == InFront(c, WordsFrom(cs, i, cur, u))
    decreases |cs| - i
  {
    hide Flush, IsUpper, IsLower, InFront;
    var ccs := [c] + cs;
    if i == |cs| {
      InFrontOfFlushed(c, cur, []);
      assert Flush([c] + cur) + [] == Flush([c] + cur) && Flush(cur) + [] == Flush(cur);
    } else {
      assert ccs[i + 1] == cs[i] && ccs[i] == cs[i - 1];
      assert i + 1 < |cs| ==> ccs[i + 2] == cs[i + 1];
      if !u.isAlphanumeric(cs[i]) {
        RestReadsSame(c, cs, i + 1, [], u);
        InFrontOfFlushed(c, cur, WordsFrom(cs, i + 1, [], u));
      } else if StartsWord(cs, i) {
        RestReadsSame(c, cs, i + 1, u.lowered(cs[i]), u);
        InFrontOfFlushed(c, cur, WordsFrom(cs, i + 1, u.lowered(cs[i]), u));
      } else {
        var more := cur + u.lowered(cs[i]);
        assert [c] + cur + u.lowered(cs[i]) == [c] + more;
        FirstWordGrows(c, cs, i + 1, more, u);
      }
    }
  }

  lemma FirstLetter(cs: string, cur: string, i: nat, u: Unicode)
    requires AsciiRule(u) && i < |cs| && IsLower(cs[i]) && (cur != [] ==> i > 0)
    ensures WordsFrom(cs, i, cur, u) == WordsFrom(cs, i + 1, cur + [cs[i]], u)
  {
    assert u.isAlphanumeric(cs[i]) && u.lowered(cs[i]) == [cs[i]];
  }

  lemma LettersDecode(name: string)
    requires name != [] && IsLower(name[0])
    ensures DecodeEscapes(name) == [name[0]] + DecodeEscapes(name[1..])
  {
  }

  /** A small letter before a name that begins with one joins its first word, and changes no other. */
  lemma LetterJoinsFirstWord(c: char, name: string, u: Unicode)
    requires AsciiRule(u) && IsLower(c) && name != [] && IsLower(name[0])
    ensures WordsOf([c] + name, u) == InFront(c, WordsOf(name, u))
  {
    hide WordsFrom, DecodeEscapes, InFront, AsciiRule;
    LettersDecode(name);
    LettersDecode([c] + name);
    assert ([c] + name)[1..] == name;
    var cs := DecodeEscapes(name);
    var ccs := [c] + cs;
    assert ccs[0] == c && ccs[1] == cs[0] == name[0];
    FirstLetter(cs, [], 0, u);
    FirstLetter(ccs, [], 0, u);
    FirstLetter(ccs, [c], 1, u);
    assert [] + [c] == [c] && [] + [name[0]] == [name[0]] && [c] + [name[0]] == [c, name[0]];
    FirstWordGrows(c, cs, 1, [name[0]], u);
  }

  /**
   Judges a name read both ways, splitting it once where the escape's letter only joins the first word. A
   secret either way is a secret; `unescaped` says which of the two names is recorded.
   */
  method JudgeFormName(name: string, after: nat, run: nat, quoted: bool, judge: seq<string> -> bool, u: Unicode)
    returns (unescaped: bool, secret: bool)
    requires AsciiRule(u) && EscapeTail(name, after)
    ensures var escaped, written := judge(WordsOf(name[after..], u)), judge(WordsOf(name, u));
      && (secret <==> escaped || written)
      && (unescaped <==> escaped && (ReadsAsEscape(name, after, run, quoted) || !written))
  {
    hide WordsFrom, DecodeEscapes, AsciiRule;
    var w := Words(name[after..], u);
    var escaped := judge(w);
    if escaped && ReadsAsEscape(name, after, run, quoted) {
      return true, true;
    }
    var written;
    if after == 1 && IsLower(name[1]) && w != [] {
      LetterJoinsFirstWord(name[0], name[1..], u);
      assert [name[0]] + name[1..] == name;
      w := [[name[0]] + w[0]] + w[1..];
      written := judge(w);
    } else {
      w := Words(name, u);
      written := judge(w);
    }
    return escaped && !written, escaped || written;
  }
}
