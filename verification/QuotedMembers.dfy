/** Members of plain text, where a name and a value may each stand in either quote, as a Python repr writes them. */
module QuotedMembers {
  import opened Bytes
  import opened Options
  import opened EscapedJson
  import opened Splices
  import opened SecretContainer
  import opened SecretDocument
  import opened NameScan
  import opened SecretMembers

  predicate IsQuoteMark(q: byte) {
    q == QUOTE || q == APOSTROPHE
  }

  /** What may stand between two quotes `q`: plain bytes, and backslashes each followed by the byte it escapes. */
  predicate QuotedBody(s: seq<byte>, q: byte) {
    if s == [] then true
    else if s[0] == BACKSLASH then |s| >= 2 && QuotedBody(s[2..], q)
    else s[0] != q && QuotedBody(s[1..], q)
  }

  /** The quote that closes a plain string is the first that no backslash escapes. */
  lemma {:induction false} QuotedCloses(b: seq<byte>, q: byte, start: nat, i: nat, body: seq<byte>)
    requires IsQuoteMark(q) && QuotedBody(body, q) && start <= i <= |b| && Has(b, i, body + [q])
    requires Aligned(RunLength(b[..i]), 2)
    ensures FindClose(b, q, start, 0, i) == Some(i + |body|)
    decreases |body|
  {
    hide RunLength, Has;
    if body == [] {
      assert body + [q] == [q];
      HasHead(b, i, [q]);
    } else {
      HasHead(b, i, body + [q]);
      assert (body + [q])[1..] == body[1..] + [q];
      if body[0] == BACKSLASH {
        HasHead(b, i + 1, body[1..] + [q]);
        assert (body[1..] + [q])[1..] == body[2..] + [q];
        EscapedPair(b, q, start, i);
        QuotedCloses(b, q, start, i + 2, body[2..]);
      } else {
        NotBackslashResets(b, i);
        QuotedCloses(b, q, start, i + 1, body[1..]);
      }
    }
  }

  lemma EscapedPair(b: seq<byte>, q: byte, start: nat, i: nat)
    requires IsQuoteMark(q) && i + 1 < |b| && b[i] == BACKSLASH && Aligned(RunLength(b[..i]), 2)
    ensures FindClose(b, q, start, 0, i) == FindClose(b, q, start, 0, i + 2)
    ensures Aligned(RunLength(b[..i + 2]), 2)
  {
    hide FindClose;
    var run := RunLength(b[..i]);
    assert b[..i + 1][..i] == b[..i] && b[..i + 2][..i + 1] == b[..i + 1];
    assert RunLength(b[..i + 1]) == run + 1;
    AlignedRemainder(run, 2, 1);
    FindNext(b, q, start, i);
    FindNext(b, q, start, i + 1);
    if b[i + 1] == BACKSLASH {
      assert RunLength(b[..i + 2]) == run + 2;
      AlignedAgain(run);
    } else {
      NotBackslashResets(b, i + 1);
    }
  }

  lemma FindNext(b: seq<byte>, q: byte, start: nat, i: nat)
    requires i < |b| && !Closes(b, q, start, 0, i)
    ensures FindClose(b, q, start, 0, i) == FindClose(b, q, start, 0, i + 1)
  {
  }

  lemma AlignedAgain(n: nat)
    requires Aligned(n, 2)
    ensures Aligned(n + 2, 2)
  {
  }

  lemma QuotedStands(b: seq<byte>, v: nat, q: byte, body: seq<byte>)
    requires Has(b, v, [q] + (body + [q]))
    ensures v + |body| + 2 <= |b| && b[v] == q && b[v + 1..v + 1 + |body|] == body
    ensures Has(b, v + 1, body + [q])
  {
    hide Has;
    HasSplit(b, v, [q], body + [q]);
    HasHead(b, v, [q]);
    HasSplit(b, v + 1, body, [q]);
    HasSlice(b, v + 1, body);
    HasSlice(b, v + 1 + |body|, [q]);
  }

  /** Between plain quotes of either kind a string is read as its content, whatever quote the name used. */
  lemma QuotedIsRead(b: seq<byte>, v: nat, name: byte, q: byte, body: seq<byte>)
    requires IsQuoteMark(name) && IsQuoteMark(q) && QuotedBody(body, q) && Has(b, v, [q] + (body + [q]))
    ensures v + |body| + 2 <= |b| && b[v + 1..v + 1 + |body|] == body && !IsSpace(b[v])
    ensures ScalarAt(b, v, name, 0) == Some(Scalar(v + 1, v + 1 + |body|, v + |body| + 2, true))
    ensures b[v] != LBRACE && b[v] != LBRACKET
  {
    hide Has, FindClose, RunLength, QuotedBody;
    QuotedStands(b, v, q, body);
    assert RunLength(b[..v + 1]) == 0 by {
      NotBackslashResets(b, v);
    }
    NoRun();
    QuotedCloses(b, q, v + 1, v + 1, body);
  }

  lemma NoRun()
    ensures Aligned(0, 2)
  {
  }

  /** At level 0 the walk of a container finds the same leaves whichever quote the name stands in. */
  function Ranges(hits: seq<Edit>): seq<(nat, nat)> {
    if hits == [] then [] else [(hits[0].start, hits[0].end)] + Ranges(hits[1..])
  }

  lemma {:induction false} RangesConcat(a: seq<Edit>, c: seq<Edit>)
    ensures Ranges(a + c) == Ranges(a) + Ranges(c)
  {
    if a == [] {
      assert a + c == c;
    } else {
      assert (a + c)[1..] == a[1..] + c;
      RangesConcat(a[1..], c);
      Assoc([(a[0].start, a[0].end)], Ranges(a[1..]), Ranges(c));
    }
  }

  lemma EitherQuoteOpens(b: seq<byte>, i: nat, p: byte, q: byte)
    requires IsQuoteMark(p) && IsQuoteMark(q)
    ensures ScalarAt(b, i, p, 0) == ScalarAt(b, i, q, 0)
  {
    hide FindClose;
  }

  lemma PushedRanges(b: seq<byte>, s: Scalar, p: byte, q: byte)
    requires s.start <= s.end <= |b|
    ensures Ranges(PushValue(b, s, p, 0)) == Ranges(PushValue(b, s, q, 0))
  {
    hide Replacement;
    var one, two := PushValue(b, s, p, 0), PushValue(b, s, q, 0);
    assert one != [] ==> one[1..] == [] && two[1..] == [];
  }

  lemma {:induction false} WalkIsQuoteFree(b: seq<byte>, i: nat, depth: nat, prev: byte, p: byte, q: byte)
    requires i <= |b| && IsQuoteMark(p) && IsQuoteMark(q)
    ensures Walk(b, i, depth, prev, p, 0).1 == Walk(b, i, depth, prev, q, 0).1
    ensures Ranges(Walk(b, i, depth, prev, p, 0).0) == Ranges(Walk(b, i, depth, prev, q, 0).0)
    decreases |b| - i
  {
    hide ScalarAt, IsKey, PushValue, IsSpace, StartsNumber, NumberMayFollow, Ranges;
    if i < |b| {
      var c := b[i];
      if c == LBRACE || c == LBRACKET {
        WalkIsQuoteFree(b, i + 1, depth + 1, c, p, q);
      } else if c == RBRACE || c == RBRACKET {
        WalkIsQuoteFree(b, i + 1, if depth == 0 then 0 else depth - 1, c, p, q);
      } else if c == COLON || c == COMMA {
        WalkIsQuoteFree(b, i + 1, depth, c, p, q);
      } else if IsSpace(c) || (StartsNumber(c) && !NumberMayFollow(prev)) {
        WalkIsQuoteFree(b, i + 1, depth, prev, p, q);
      } else {
        EitherQuoteOpens(b, i, p, q);
        match ScalarAt(b, i, p, 0) {
          case None => WalkIsQuoteFree(b, i + 1, depth, c, p, q);
          case Some(s) =>
            WalkIsQuoteFree(b, s.next, depth, QUOTE, p, q);
            PushedRanges(b, s, p, q);
            RangesConcat(PushValue(b, s, p, 0), Walk(b, s.next, depth, QUOTE, p, 0).0);
            RangesConcat(PushValue(b, s, q, 0), Walk(b, s.next, depth, QUOTE, q, 0).0);
            RangesConcat([], Walk(b, s.next, depth, QUOTE, p, 0).0);
            RangesConcat([], Walk(b, s.next, depth, QUOTE, q, 0).0);
        }
      }
    }
  }

  // ---- The member ----

  /** A name in plain quotes, its colon, and the white space around it, standing at `at`; the value is at `v`. */
  ghost predicate NameAt(b: seq<byte>, at: nat, name: seq<byte>, q: byte, gap: seq<byte>, after: seq<byte>, v: nat) {
    && IsQuoteMark(q) && PlainName(name, q) && Unescaped(b, at) && AllSpace(gap) && AllSpace(after)
    && var colon := at + |name| + 2 + |gap|;
    && Has(b, at, [q] + (name + [q])) && Has(b, at + |name| + 2, gap) && Has(b, colon, [COLON])
    && Has(b, colon + 1, after) && v == colon + 1 + |after|
  }

  lemma PlainQuotes(name: seq<byte>, q: byte)
    ensures Quoted(name, q, 0) == [q] + (name + [q])
  {
    assert Backslashes(0) == [] && [] + [q] == [q];
  }

  /** The scan at the colon of such a member: what its value yields when the name is secret, and nothing when not. */
  lemma QuotedMemberYields(b: seq<byte>, at: nat, name: seq<byte>, q: byte, gap: seq<byte>, after: seq<byte>, v: nat,
      judge: Judge)
    requires NameAt(b, at, name, q, gap, after, v) && v < |b| && !IsSpace(b[v])
    ensures var colon := at + |name| + 2 + |gap|;
      && colon < v && StepAt(b, colon, judge) == if SecretName(name, judge) then ValueFound(b, v, q, 0) else NOTHING
  {
    hide Has, ValueFound, StepAt, Quoted;
    PlainQuotes(name, q);
    HasHead(b, at + |name| + 2 + |gap|, [COLON]);
    ColonFinds(b, at, name, q, 0, gap, judge);
    SkipOverGap(b, at + |name| + 2 + |gap| + 1, after);
  }

  /** A secret string in either quote: its content is hit, and the scan goes on behind its closing quote. */
  lemma QuotedStringIsHit(b: seq<byte>, at: nat, name: seq<byte>, q: byte, gap: seq<byte>, after: seq<byte>, v: nat,
      mark: byte, body: seq<byte>, judge: Judge)
    requires NameAt(b, at, name, q, gap, after, v)
    requires IsQuoteMark(mark) && QuotedBody(body, mark) && Has(b, v, [mark] + (body + [mark]))
    ensures var colon, end := at + |name| + 2 + |gap|, v + |body| + 2;
      if !SecretName(name, judge) then Yields(b, colon, [], colon + 1, judge)
      else if body == [] || body == PLACEHOLDER then Yields(b, colon, [], end, judge)
      else Yields(b, colon, [Edit(v + 1, v + 1 + |body|, PLACEHOLDER)], end, judge)
  {
    hide Has, ScalarAt, Yields, StepAt, Walk;
    QuotedIsRead(b, v, q, mark, body);
    QuotedMemberYields(b, at, name, q, gap, after, v, judge);
    StepYields(b, at + |name| + 2 + |gap|, judge);
  }

  /** A secret number becomes a string in the name's own quotes. */
  lemma QuotedNumberIsHit(b: seq<byte>, at: nat, name: seq<byte>, q: byte, gap: seq<byte>, after: seq<byte>, v: nat,
      digits: seq<byte>, judge: Judge)
    requires NameAt(b, at, name, q, gap, after, v)
    requires IsNumber(digits) && Has(b, v, digits) && (v + |digits| < |b| ==> !InNumber(b[v + |digits|]))
    ensures var colon := at + |name| + 2 + |gap|;
      if !SecretName(name, judge) then Yields(b, colon, [], colon + 1, judge)
      else Yields(b, colon, [Edit(v, v + |digits|, [q] + PLACEHOLDER + [q])], v + |digits|, judge)
  {
    hide Has, Yields, StepAt, Walk;
    assert forall c :: c in digits[1..] ==> c in digits;
    HasHead(b, v, digits);
    NumberRunsTo(b, v + 1, digits[1..]);
    HasSlice(b, v, digits);
    assert digits[0] != PLACEHOLDER[0];
    assert ScalarAt(b, v, q, 0) == Some(Scalar(v, v + |digits|, v + |digits|, false));
    assert Replacement(false, q, 0) == [q] + PLACEHOLDER + [q] by {
      assert Backslashes(0) == [] && [] + [q] == [q] && [q] + PLACEHOLDER + [] == [q] + PLACEHOLDER;
    }
    QuotedMemberYields(b, at, name, q, gap, after, v, judge);
    StepYields(b, at + |name| + 2 + |gap|, judge);
  }

  /** A secret object or list: the leaves hit are those that masking the document replaces. */
  lemma QuotedContainerIsHit(b: seq<byte>, at: nat, name: seq<byte>, q: byte, gap: seq<byte>, after: seq<byte>, v: nat,
      j: Json, gaps: seq<seq<byte>>, judge: Judge) returns (hits: seq<Edit>, leaves: seq<Edit>)
    requires NameAt(b, at, name, q, gap, after, v)
    requires WellFormed(j) && (j.Arr? || j.Obj?) && |gaps| == |Tokens(j)| && AllGaps(gaps) && gaps[0] == []
    requires Has(b, v, Render(1, Tokens(j), gaps))
    ensures var colon, end := at + |name| + 2 + |gap|, v + |Render(1, Tokens(j), gaps)|;
      && |gaps| == |Tokens(Mask(j))| && end <= |b|
      && InOrder(leaves, v, end) && Splice(b, leaves, v, end) == Render(1, Tokens(Mask(j)), gaps)
      && if !SecretName(name, judge) then hits == [] && Yields(b, colon, hits, colon + 1, judge)
         else Ranges(hits) == Ranges(leaves) && Yields(b, colon, hits, end, judge)
  {
    hide Has, Yields, StepAt, Walk, Render, Tokens, Mask, Splice, InOrder, WellFormed, Ranges;
    MaskIsTokenwise(j);
    ContainerStarts(b, v, 1, j, gaps);
    ContainerIsWalked(b, v, 1, j, gaps);
    leaves := ValueFound(b, v, QUOTE, 0).hits;
    QuotedMemberYields(b, at, name, q, gap, after, v, judge);
    WalkIsQuoteFree(b, v, 0, LBRACKET, q, QUOTE);
    StepYields(b, at + |name| + 2 + |gap|, judge);
    hits := StepAt(b, at + |name| + 2 + |gap|, judge).hits;
  }
}
