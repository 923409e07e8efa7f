/** The card-number scan: no Luhn-valid card between word boundaries survives whole. */
module Cards {
  import opened Characters
  import opened Options
  import opened Checksums

  datatype Hit = Hit(start: nat, end: nat)

  predicate IsSeparator(c: char) {
    c == ' ' || c == '-'
  }

  /** Which characters the regex counts as word characters; digits are, the separators are not. */
  ghost predicate WordRule(isWord: char -> bool) {
    forall c :: (IsDigit(c) ==> isWord(c)) && (IsSeparator(c) ==> !isWord(c))
  }

  predicate DigitAt(t: string, p: nat) {
    p < |t| && IsDigit(t[p])
  }

  predicate WordAt(t: string, p: int, isWord: char -> bool) {
    0 <= p < |t| && isWord(t[p])
  }

  /** `\b`: a word character on exactly one side of `p`. */
  predicate Boundary(t: string, p: nat, isWord: char -> bool) {
    WordAt(t, p - 1, isWord) != WordAt(t, p, isWord)
  }

  // ----- The pattern: a digit, then 12 to 18 more, each after at most one separator -----

  /** After one more digit, its separator included. */
  function NextDigit(t: string, p: nat): (n: Option<nat>)
    ensures n.Some? ==> p < n.value <= p + 2 && n.value <= |t| && DigitAt(t, n.value - 1)
  {
    if DigitAt(t, p) then Some(p + 1)
    else if p < |t| && IsSeparator(t[p]) && DigitAt(t, p + 1) then Some(p + 2)
    else None
  }

  /** After a first digit at `s` and `k` more. */
  function Reach(t: string, s: nat, k: nat): (e: Option<nat>)
    ensures e.Some? ==> s + k < e.value <= |t| && DigitAt(t, e.value - 1)
  {
    if k == 0 then if DigitAt(t, s) then Some(s + 1) else None
    else
      var e := Reach(t, s, k - 1);
      if e.None? then None else NextDigit(t, e.value)
  }

  /** Greedy: the longest of at most `k` further digits that ends at a word boundary. */
  function LongestEnd(t: string, s: nat, k: nat, isWord: char -> bool): (e: Option<nat>)
    ensures e.Some? ==> s + 12 < e.value <= |t| && DigitAt(t, e.value - 1)
  {
    if k < 12 then None
    else
      var e := Reach(t, s, k);
      if e.Some? && Boundary(t, e.value, isWord) then e else LongestEnd(t, s, k - 1, isWord)
  }

  function MatchEnd(t: string, s: nat, isWord: char -> bool): Option<nat> {
    if Boundary(t, s, isWord) then LongestEnd(t, s, 18, isWord) else None
  }

  /** The leftmost match that starts at or after `at`. */
  function FindAt(t: string, at: nat, isWord: char -> bool): (m: Option<Hit>)
    ensures m.Some? ==> at <= m.value.start && m.value.start + 12 < m.value.end <= |t|
    ensures m.Some? ==> MatchEnd(t, m.value.start, isWord) == Some(m.value.end)
    decreases |t| - at
  {
    if at >= |t| then None
    else
      var e := MatchEnd(t, at, isWord);
      if e.Some? then Some(Hit(at, e.value)) else FindAt(t, at + 1, isWord)
  }

  // ----- What a rejected candidate is worth -----

  /** The longest candidate from `s` of at most `e` that ends a digit run, keeps 13 digits, and passes. */
  function Shrink(t: string, s: nat, e: nat): (r: Option<nat>)
    requires s <= e < |t|
    ensures r.Some? ==> s < r.value <= e && Luhn(t[s..(r.value)])
    decreases e
  {
    if e == s then None
    else if !IsDigit(t[e - 1]) || IsDigit(t[e]) then Shrink(t, s, e - 1)
    else if |DigitsOf(t[s..e])| < 13 then None
    else if Luhn(t[s..e]) then Some(e)
    else Shrink(t, s, e - 1)
  }

  method ShrinkToValid(t: string, s: nat, end: nat) returns (r: Option<nat>)
    requires s < end <= |t|
    ensures r == Shrink(t, s, end - 1)
  {
    var e := end - 1;
    while e > s
      invariant s <= e < |t|
      invariant Shrink(t, s, end - 1) == Shrink(t, s, e)
    {
      if IsDigit(t[e - 1]) && !IsDigit(t[e]) {
        if |DigitsOf(t[s..e])| < 13 {
          break;
        }
        var ok := LuhnValid(t[s..e]);
        if ok {
          return Some(e);
        }
      }
      e := e - 1;
    }
    return None;
  }

  // ----- The scan -----

  /** What one candidate yields: the whole of it, a shorter one, or nothing. */
  function Accept(t: string, m: Hit): (r: Option<nat>)
    requires m.start < m.end <= |t|
    ensures r.Some? ==> m.start < r.value <= m.end && Luhn(t[m.start..(r.value)])
  {
    if Luhn(t[m.start..m.end]) then Some(m.end) else Shrink(t, m.start, m.end - 1)
  }

  function Scan(t: string, at: nat, isWord: char -> bool): seq<Hit>
    decreases |t| - at
  {
    match FindAt(t, at, isWord)
    case None => []
    case Some(m) =>
      match Accept(t, m)
      case Some(e) => [Hit(m.start, e)] + Scan(t, e, isWord)
      case None => Scan(t, m.start + 1, isWord)
  }

  /** A rejected candidate is retried one character further on, so the loop always advances. */
  method ScanCards(t: string, isWord: char -> bool) returns (hits: seq<Hit>)
    ensures hits == Scan(t, 0, isWord)
  {
    hide Luhn, MatchEnd, Shrink;
    hits := [];
    var at := 0;
    while true
      invariant Scan(t, 0, isWord) == hits + Scan(t, at, isWord)
      decreases |t| - at
    {
      var m := FindAt(t, at, isWord);
      if m.None? {
        assert hits + [] == hits;
        return;
      }
      var Hit(start, end) := m.value;
      var ok := LuhnValid(t[start..end]);
      if ok {
        Found(hits, Hit(start, end), Scan(t, end, isWord));
        hits := hits + [Hit(start, end)];
        at := end;
      } else {
        var e := ShrinkToValid(t, start, end);
        if e.Some? {
          Found(hits, Hit(start, e.value), Scan(t, e.value, isWord));
          hits := hits + [Hit(start, e.value)];
          at := e.value;
        } else {
          at := start + 1;
        }
      }
      if at >= |t| {
        assert Scan(t, at, isWord) == [];
        assert hits + [] == hits;
        return;
      }
    }
  }

  lemma Found(hits: seq<Hit>, h: Hit, rest: seq<Hit>)
    ensures hits + ([h] + rest) == hits + [h] + rest
  {
  }

  // ----- Cards, said without the regex -----

  /** The character at `i` is a digit, or a separator with a digit right after it. */
  predicate Placed(c: string, i: nat)
    requires i < |c|
  {
    IsDigit(c[i]) || (IsSeparator(c[i]) && i + 1 < |c| && IsDigit(c[i + 1]))
  }

  /** Digits, with at most one separator between two of them. */
  predicate Shaped(c: string) {
    c != [] && IsDigit(c[0]) && forall i :: 0 <= i < |c| ==> Placed(c, i)
  }

  /** A card standing alone between word boundaries. */
  predicate IsCard(t: string, s: nat, e: nat, isWord: char -> bool) {
    && s < e <= |t| && Shaped(t[s..e]) && Luhn(t[s..e])
    && !WordAt(t, s - 1, isWord) && !WordAt(t, e, isWord)
  }

  lemma DigitsOfOne(c: string)
    requires |c| == 1 && IsDigit(c[0])
    ensures |DigitsOf(c)| == 1
  {
    assert c[..0] == [];
  }

  lemma ShapedPrefix(c: string, n: nat)
    requires Shaped(c) && 0 < n <= |c| && IsDigit(c[n - 1])
    ensures Shaped(c[..n])
  {
    forall i | 0 <= i < n ensures Placed(c[..n], i) {
      assert Placed(c, i);
    }
  }

  /** A card ends in a digit, which follows another digit, or a separator that follows one. */
  lemma ShapedShrinks(c: string)
    requires Shaped(c) && |c| > 1
    ensures IsDigit(c[|c| - 1])
    ensures IsDigit(c[|c| - 2]) || (|c| >= 3 && IsSeparator(c[|c| - 2]) && IsDigit(c[|c| - 3]))
  {
    var n := |c|;
    assert Placed(c, n - 1) && Placed(c, n - 2);
    if !IsDigit(c[n - 2]) && n >= 3 {
      assert Placed(c, n - 3);
    }
  }

  lemma DigitsShrink(c: string, n: nat)
    requires 0 < n < |c| && IsDigit(c[|c| - 1])
    requires n == |c| - 1 || (n == |c| - 2 && !IsDigit(c[n]))
    ensures |DigitsOf(c)| == |DigitsOf(c[..n])| + 1
  {
    if n == |c| - 2 {
      assert c[..|c| - 1][..n] == c[..n];
    }
  }

  /** A card of more than one digit is a shorter card and one step of the pattern. */
  lemma ShapedStep(t: string, s: nat, e: nat) returns (p: nat)
    requires s + 1 < e <= |t| && Shaped(t[s..e])
    ensures s < p < e && Shaped(t[s..p]) && |DigitsOf(t[s..e])| == |DigitsOf(t[s..p])| + 1
    ensures DigitAt(t, e - 1) && (e == p + 1 || (e == p + 2 && !IsDigit(t[p]) && IsSeparator(t[p])))
  {
    hide Shaped, DigitsOf, IsDigit, IsSeparator;
    var c := t[s..e];
    ShapedShrinks(c);
    assert c[|c| - 1] == t[e - 1] && c[|c| - 2] == t[e - 2];
    var n := if IsDigit(t[e - 2]) then |c| - 1 else |c| - 2;
    p := s + n;
    assert c[n - 1] == t[p - 1];
    ShapedPrefix(c, n);
    DigitsShrink(c, n);
    assert c[..n] == t[s..p];
  }

  lemma {:induction false} ShapedReaches(t: string, s: nat, e: nat)
    requires s < e <= |t| && Shaped(t[s..e])
    ensures |DigitsOf(t[s..e])| > 0 && Reach(t, s, |DigitsOf(t[s..e])| - 1) == Some(e)
    decreases e
  {
    hide Shaped, DigitsOf, NextDigit;
    ShapedStarts(t, s, e);
    if e == s + 1 {
      DigitsOfOne(t[s..e]);
    } else {
      var p := ShapedStep(t, s, e);
      ShapedReaches(t, s, p);
      ReachNext(t, s, |DigitsOf(t[s..p])| - 1, p, e);
    }
  }

  lemma ReachNext(t: string, s: nat, k: nat, p: nat, e: nat)
    requires Reach(t, s, k) == Some(p) && e > 0 && DigitAt(t, e - 1)
    requires e == p + 1 || (e == p + 2 && p < |t| && !IsDigit(t[p]) && IsSeparator(t[p]))
    ensures Reach(t, s, k + 1) == Some(e)
  {
  }

  lemma ShapedStarts(t: string, s: nat, e: nat)
    requires s < e <= |t| && Shaped(t[s..e])
    ensures DigitAt(t, s)
  {
    assert t[s..e][0] == t[s];
  }

  lemma {:induction false} ReachGrows(t: string, s: nat, j: nat, k: nat)
    requires j <= k && Reach(t, s, k).Some?
    ensures Reach(t, s, j).Some? && Reach(t, s, j).value <= Reach(t, s, k).value
    decreases k - j
  {
    if j < k {
      ReachGrows(t, s, j + 1, k);
    }
  }

  lemma {:induction false} LongestEndCovers(t: string, s: nat, j: nat, k: nat, isWord: char -> bool)
    requires 12 <= j <= k && Reach(t, s, j).Some? && Boundary(t, Reach(t, s, j).value, isWord)
    ensures LongestEnd(t, s, k, isWord).Some? && LongestEnd(t, s, k, isWord).value >= Reach(t, s, j).value
    decreases k
  {
    var e := Reach(t, s, k);
    if e.Some? && Boundary(t, e.value, isWord) {
      ReachGrows(t, s, j, k);
    } else {
      LongestEndCovers(t, s, j, k - 1, isWord);
    }
  }

  lemma {:induction false} FindIsLeftmost(t: string, at: nat, p: nat, isWord: char -> bool)
    requires at <= p && MatchEnd(t, p, isWord).Some?
    ensures p < |t| && FindAt(t, at, isWord).Some? && FindAt(t, at, isWord).value.start <= p
    decreases p - at
  {
    if MatchEnd(t, at, isWord).None? {
      FindIsLeftmost(t, at + 1, p, isWord);
    }
  }

  /** A card is a match at its own start, and the match there runs at least to its end. */
  lemma CardMatches(t: string, s: nat, e: nat, isWord: char -> bool)
    requires WordRule(isWord) && IsCard(t, s, e, isWord)
    ensures MatchEnd(t, s, isWord).Some? && MatchEnd(t, s, isWord).value >= e
    ensures IsDigit(t[e - 1]) && (e < |t| ==> !IsDigit(t[e]))
  {
    hide LongestEnd, Reach;
    ShapedReaches(t, s, e);
    var c := t[s..e];
    assert c[0] == t[s] && c[|c| - 1] == t[e - 1];
    LongestEndCovers(t, s, |DigitsOf(c)| - 1, 18, isWord);
  }

  /** The shrinking probe passes over no valid candidate that ends a digit run. */
  lemma {:induction false} ShrinkFinds(t: string, s: nat, p: nat, e: nat)
    requires s < e <= p < |t| && IsDigit(t[e - 1]) && !IsDigit(t[e]) && Luhn(t[s..e])
    ensures Shrink(t, s, p).Some?
    decreases p
  {
    if e < p && !(IsDigit(t[p - 1]) && !IsDigit(t[p]) && Luhn(t[s..p])) {
      assert t[s..p] == t[s..e] + t[e..p];
      DigitsConcat(t[s..e], t[e..p]);
      ShrinkFinds(t, s, p - 1, e);
    }
  }

  ghost predicate Touched(hits: seq<Hit>, s: nat, e: nat) {
    exists h :: h in hits && h.start < e && s < h.end
  }

  lemma TouchedLater(h: Hit, hits: seq<Hit>, s: nat, e: nat)
    requires Touched(hits, s, e)
    ensures Touched([h] + hits, s, e)
  {
    var x :| x in hits && x.start < e && s < x.end;
    assert x in [h] + hits;
  }

  lemma TouchedFirst(h: Hit, hits: seq<Hit>, s: nat, e: nat)
    requires h.start < e && s < h.end
    ensures Touched([h] + hits, s, e)
  {
    assert h in [h] + hits;
  }

  lemma CardIsAccepted(t: string, s: nat, e: nat, m: Hit, isWord: char -> bool)
    requires WordRule(isWord) && IsCard(t, s, e, isWord)
    requires m.start == s && s + 12 < m.end <= |t| && MatchEnd(t, s, isWord) == Some(m.end)
    ensures Accept(t, m).Some?
  {
    hide Luhn, MatchEnd, Shrink, Shaped;
    CardMatches(t, s, e, isWord);
    if !Luhn(t[s..m.end]) {
      ShrinkFinds(t, s, m.end - 1, e);
    }
  }

  /** Every valid card between word boundaries meets an accepted hit: through greedy candidates that
      bled past it, and through rejected ones that began before it. */
  lemma {:induction false} NoCardSurvives(t: string, at: nat, s: nat, e: nat, isWord: char -> bool)
    requires WordRule(isWord) && IsCard(t, s, e, isWord) && at <= s
    ensures Touched(Scan(t, at, isWord), s, e)
    decreases |t| - at
  {
    hide WordRule, IsCard, MatchEnd, Accept, Touched;
    CardMatches(t, s, e, isWord);
    FindIsLeftmost(t, at, s, isWord);
    var m := FindAt(t, at, isWord).value;
    CardEnds(t, s, e, isWord);
    if m.start == s {
      CardIsAccepted(t, s, e, m, isWord);
      TouchedFirst(Hit(s, Accept(t, m).value), Scan(t, Accept(t, m).value, isWord), s, e);
    } else {
      match Accept(t, m) {
        case Some(x) =>
          if s < x {
            TouchedFirst(Hit(m.start, x), Scan(t, x, isWord), s, e);
          } else {
            NoCardSurvives(t, x, s, e, isWord);
            TouchedLater(Hit(m.start, x), Scan(t, x, isWord), s, e);
          }
        case None =>
          NoCardSurvives(t, m.start + 1, s, e, isWord);
      }
    }
  }

  lemma CardEnds(t: string, s: nat, e: nat, isWord: char -> bool)
    requires IsCard(t, s, e, isWord)
    ensures s < e <= |t|
  {
  }

  // ----- And nothing else is hit -----

  lemma ShapedExtends(t: string, s: nat, p: nat, e: nat)
    requires s < p <= |t| && Shaped(t[s..p]) && NextDigit(t, p) == Some(e)
    ensures Shaped(t[s..e])
  {
    var c := t[s..e];
    forall i | 0 <= i < |c|
      ensures Placed(c, i)
    {
      if s + i < p {
        assert Placed(t[s..p], i);
        assert t[s..p][i] == c[i];
        assert i + 1 < p - s ==> t[s..p][i + 1] == c[i + 1];
      }
    }
    assert c[0] == t[s..p][0];
  }

  lemma {:induction false} ReachIsShaped(t: string, s: nat, k: nat)
    requires Reach(t, s, k).Some?
    ensures s < Reach(t, s, k).value && Shaped(t[s..Reach(t, s, k).value])
  {
    hide Shaped, NextDigit;
    if k == 0 {
      assert Shaped([t[s]]) by {
        OneDigitIsShaped(t[s]);
      }
      assert t[s..s + 1] == [t[s]];
    } else {
      ReachIsShaped(t, s, k - 1);
      ShapedExtends(t, s, Reach(t, s, k - 1).value, Reach(t, s, k).value);
    }
  }

  lemma OneDigitIsShaped(c: char)
    requires IsDigit(c)
    ensures Shaped([c])
  {
  }

  lemma {:induction false} MatchesAreShaped(t: string, s: nat, k: nat, isWord: char -> bool)
    requires LongestEnd(t, s, k, isWord).Some?
    ensures Shaped(t[s..LongestEnd(t, s, k, isWord).value])
    ensures Boundary(t, LongestEnd(t, s, k, isWord).value, isWord)
    decreases k
  {
    hide Shaped, Boundary;
    if Reach(t, s, k).Some? {
      ReachIsShaped(t, s, k);
    }
    if LongestEnd(t, s, k, isWord) != Reach(t, s, k) || !Boundary(t, LongestEnd(t, s, k, isWord).value, isWord) {
      MatchesAreShaped(t, s, k - 1, isWord);
    }
  }

  lemma {:induction false} ShrunkEndsARun(t: string, s: nat, e: nat)
    requires s <= e < |t| && Shrink(t, s, e).Some?
    ensures var r := Shrink(t, s, e).value; s < r <= e && IsDigit(t[r - 1]) && !IsDigit(t[r])
    decreases e
  {
    hide Luhn, DigitsOf;
    if Shrink(t, s, e) != Some(e) {
      ShrunkEndsARun(t, s, e - 1);
    }
  }

  /** Inside a shaped stretch the character after a digit run is a separator. */
  lemma RunEndsAtSeparator(t: string, s: nat, e: nat, r: nat)
    requires s < r < e <= |t| && Shaped(t[s..e]) && IsDigit(t[r - 1]) && !IsDigit(t[r])
    ensures IsSeparator(t[r]) && Shaped(t[s..r])
  {
    var c := t[s..e];
    assert Placed(c, r - s) && c[r - s] == t[r] && c[r - s - 1] == t[r - 1];
    ShapedPrefix(c, r - s);
    assert c[..r - s] == t[s..r];
  }

  lemma BoundaryByDigit(t: string, p: nat, isWord: char -> bool)
    requires WordRule(isWord) && Boundary(t, p, isWord)
    ensures DigitAt(t, p) ==> !WordAt(t, p - 1, isWord)
    ensures 0 < p && DigitAt(t, p - 1) ==> !WordAt(t, p, isWord)
  {
  }

  /** What a candidate yields is a card. */
  lemma AcceptedIsCard(t: string, m: Hit, isWord: char -> bool)
    requires WordRule(isWord) && m.start < m.end <= |t| && MatchEnd(t, m.start, isWord) == Some(m.end)
    requires Accept(t, m).Some?
    ensures IsCard(t, m.start, Accept(t, m).value, isWord)
  {
    hide Luhn, Shaped, Boundary, Reach, WordAt, WordRule;
    var s, e := m.start, Accept(t, m).value;
    MatchesAreShaped(t, s, 18, isWord);
    ShapedStarts(t, s, m.end);
    BoundaryByDigit(t, s, isWord);
    BoundaryByDigit(t, m.end, isWord);
    if !Luhn(t[s..m.end]) {
      ShrunkEndsARun(t, s, m.end - 1);
      RunEndsAtSeparator(t, s, m.end, e);
      SeparatorIsNoWord(t, e, isWord);
    }
  }

  lemma SeparatorIsNoWord(t: string, p: nat, isWord: char -> bool)
    requires WordRule(isWord) && p < |t| && IsSeparator(t[p])
    ensures !WordAt(t, p, isWord)
  {
  }

  /** Every hit is itself a card between word boundaries, and hits never overlap. */
  lemma {:induction false} HitsAreCards(t: string, at: nat, isWord: char -> bool)
    requires WordRule(isWord)
    ensures forall h :: h in Scan(t, at, isWord) ==> at <= h.start && IsCard(t, h.start, h.end, isWord)
    ensures forall i, j :: 0 <= i < j < |Scan(t, at, isWord)| ==>
      Scan(t, at, isWord)[i].end <= Scan(t, at, isWord)[j].start
    decreases |t| - at
  {
    hide MatchEnd, Accept, IsCard, WordRule;
    match FindAt(t, at, isWord) {
      case None =>
      case Some(m) =>
        match Accept(t, m) {
          case Some(e) =>
            AcceptedIsCard(t, m, isWord);
            HitsAreCards(t, e, isWord);
            var rest := Scan(t, e, isWord);
            assert forall j :: 0 <= j < |rest| ==> rest[j] in rest;
          case None =>
            HitsAreCards(t, m.start + 1, isWord);
        }
    }
  }

  /** The scan changes a text exactly when there is a card in it, separators or not: a digit or letter that
      touches the end of a number saves it only where no part of the number is a card by itself. */
  lemma OnlyCardsAreHit(t: string, isWord: char -> bool)
    requires WordRule(isWord)
    ensures Scan(t, 0, isWord) != [] <==> exists s: nat, e: nat :: IsCard(t, s, e, isWord)
  {
    hide IsCard, WordRule;
    HitsAreCards(t, 0, isWord);
    var hits := Scan(t, 0, isWord);
    if hits != [] {
      assert hits[0] in hits;
      assert IsCard(t, hits[0].start, hits[0].end, isWord);
    }
    if exists s: nat, e: nat :: IsCard(t, s, e, isWord) {
      var s: nat, e: nat :| IsCard(t, s, e, isWord);
      NoCardSurvives(t, 0, s, e, isWord);
    }
  }

  // ----- Why word boundaries, and not just the ends of the digits -----

  /** The only digits of `t` are the unbroken run from `s` to `e`. */
  ghost predicate OnlyRun(t: string, s: nat, e: nat) {
    s < e <= |t| && forall p: nat :: DigitAt(t, p) <==> s <= p < e
  }

  lemma {:induction false} RunReach(t: string, s: nat, e: nat, k: nat)
    requires OnlyRun(t, s, e)
    ensures Reach(t, s, k) == if s + k < e then Some(s + k + 1) else None
  {
    assert DigitAt(t, s);
    if k > 0 {
      RunReach(t, s, e, k - 1);
      assert DigitAt(t, s + k) <==> s + k < e;
      assert !DigitAt(t, e + 1);
    }
  }

  lemma InsideRun(t: string, s: nat, e: nat, p: nat, isWord: char -> bool)
    requires OnlyRun(t, s, e) && WordRule(isWord) && s <= p <= e
    ensures s < p < e ==> !Boundary(t, p, isWord)
    ensures Boundary(t, s, isWord) <==> !WordAt(t, s - 1, isWord)
    ensures Boundary(t, e, isWord) <==> !WordAt(t, e, isWord)
  {
    assert DigitAt(t, s) && DigitAt(t, e - 1);
    assert s < p < e ==> DigitAt(t, p - 1) && DigitAt(t, p);
  }

  lemma {:induction false} RunLongestEnd(t: string, s: nat, e: nat, k: nat, isWord: char -> bool)
    requires OnlyRun(t, s, e) && WordRule(isWord)
    ensures LongestEnd(t, s, k, isWord)
      == if 13 <= e - s <= k + 1 && !WordAt(t, e, isWord) then Some(e) else None
    decreases k
  {
    if k >= 12 {
      RunReach(t, s, e, k);
      InsideRun(t, s, e, if s + k + 1 <= e then s + k + 1 else e, isWord);
      RunLongestEnd(t, s, e, k - 1, isWord);
    }
  }

  lemma {:induction false} NoDigitNoReach(t: string, p: nat, k: nat)
    requires !DigitAt(t, p)
    ensures Reach(t, p, k) == None
  {
    if k > 0 {
      NoDigitNoReach(t, p, k - 1);
    }
  }

  lemma {:induction false} NoDigitNoEnd(t: string, p: nat, k: nat, isWord: char -> bool)
    requires !DigitAt(t, p)
    ensures LongestEnd(t, p, k, isWord) == None
    decreases k
  {
    if k >= 12 {
      NoDigitNoReach(t, p, k);
      NoDigitNoEnd(t, p, k - 1, isWord);
    }
  }

  lemma RunMatches(t: string, s: nat, e: nat, p: nat, isWord: char -> bool)
    requires OnlyRun(t, s, e) && WordRule(isWord)
    ensures MatchEnd(t, p, isWord)
      == if p == s && 13 <= e - s <= 19 && !WordAt(t, s - 1, isWord) && !WordAt(t, e, isWord) then Some(e) else None
  {
    hide LongestEnd, Boundary, WordAt, WordRule;
    if p == s {
      RunLongestEnd(t, s, e, 18, isWord);
      InsideRun(t, s, e, s, isWord);
    } else if DigitAt(t, p) {
      InsideRun(t, s, e, p, isWord);
    } else {
      NoDigitNoEnd(t, p, 18, isWord);
    }
  }

  lemma {:induction false} FindSkips(t: string, at: nat, p: nat, isWord: char -> bool)
    requires at <= p && forall q: nat :: at <= q < p ==> MatchEnd(t, q, isWord).None?
    ensures FindAt(t, at, isWord) == FindAt(t, p, isWord)
    decreases p - at
  {
    if at < p {
      assert MatchEnd(t, at, isWord).None?;
      FindSkips(t, at + 1, p, isWord);
    }
  }

  /** A valid run of 13 to 19 digits alone in a text is hit, whole, exactly when no word character
      touches either end of it; one letter against it and the number is kept. */
  lemma LoneRunIsHitBetweenWordBoundaries(t: string, s: nat, e: nat, isWord: char -> bool)
    requires WordRule(isWord) && OnlyRun(t, s, e) && Luhn(t[s..e]) && 13 <= e - s <= 19
    ensures Scan(t, 0, isWord)
      == if !WordAt(t, s - 1, isWord) && !WordAt(t, e, isWord) then [Hit(s, e)] else []
  {
    hide MatchEnd, OnlyRun, WordAt, WordRule, Luhn;
    var hit := !WordAt(t, s - 1, isWord) && !WordAt(t, e, isWord);
    forall q: nat ensures MatchEnd(t, q, isWord) == if q == s && hit then Some(e) else None {
      RunMatches(t, s, e, q, isWord);
    }
    assert s < e <= |t| by {
      RunFits(t, s, e);
    }
    FindSkips(t, 0, s, isWord);
    FindSkips(t, s + 1, |t|, isWord);
    FindSkips(t, e, |t|, isWord);
    assert FindAt(t, e, isWord) == None;
    if hit {
      assert FindAt(t, s, isWord) == Some(Hit(s, e));
      assert [Hit(s, e)] + [] == [Hit(s, e)];
    }
  }

  lemma RunFits(t: string, s: nat, e: nat)
    requires OnlyRun(t, s, e)
    ensures s < e <= |t|
  {
  }
}
