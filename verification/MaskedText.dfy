/** What stands in the masked text: each edit writes the replacement of the hit that wins there. */
module MaskedText {
  import opened Bytes
  import opened Options
  import opened Splices
  import opened Userinfo
  import opened MaskEdits

  predicate Covers(h: Hit, p: nat) {
    h.start <= p < h.end
  }

  /** Leftmost; among those the longest; of one and the same range a name rule's, if there is one. */
  predicate Wins(h: Hit, g: Hit) {
    && h.start <= g.start
    && (h.start == g.start ==> h.end >= g.end)
    && (h.start == g.start && h.end == g.end && g.name.Some? ==> h.name.Some?)
  }

  lemma {:induction false} SortedFirstWins(hits: seq<Hit>)
    requires Sorted(hits)
    ensures forall i :: 0 <= i < |hits| ==> Wins(hits[0], hits[i])
  {
    if |hits| > 1 {
      SortedFirstWins(hits[1..]);
      forall i | 1 <= i < |hits|
        ensures Wins(hits[0], hits[i])
      {
        assert hits[i] == hits[1..][i - 1];
        assert Before(hits[0], hits[1]) && Wins(hits[1], hits[i]);
      }
    }
  }

  /** Which hit an edit comes from: it writes that hit's replacement, ends where the hit ends, and nothing else
      that covers a byte of it wins over the hit. */
  ghost predicate Written(e: Edit, h: Hit, hits: seq<Hit>) {
    && e.replacement == h.replacement && e.end == h.end && h.start <= e.start
    && forall g, p: nat :: g in hits && e.start <= p < e.end && Covers(g, p) ==> Wins(h, g)
  }

  lemma WrittenFirst(hits: seq<Hit>, pos: nat)
    requires hits != [] && Sorted(hits)
    ensures Written(Edit(Max(hits[0].start, pos), hits[0].end, hits[0].replacement), hits[0], hits)
  {
    SortedFirstWins(hits);
  }

  lemma WrittenLater(e: Edit, h: Hit, hits: seq<Hit>, next: nat)
    requires hits != [] && h in hits[1..] && Written(e, h, hits[1..])
    requires next <= e.start && hits[0].end <= next
    ensures h in hits && Written(e, h, hits)
  {
    assert hits == [hits[0]] + hits[1..];
  }

  /** Every edit of a merge is written by the hit that wins on it. */
  lemma {:induction false} MergeWrites(hits: seq<Hit>, pos: nat, n: nat, i: nat) returns (h: Hit)
    requires Sorted(hits) && AllRanged(hits, n) && pos <= n && i < |Merge(hits, pos)|
    ensures h in hits && Written(Merge(hits, pos)[i], h, hits)
    ensures Merge(hits, pos)[i].start >= pos
    decreases |hits|
  {
    hide Written;
    h := hits[0];
    var next := if h.start >= pos || h.end > pos then h.end else pos;
    assert AllRanged(hits[1..], n) by {
      assert forall k :: 0 <= k < |hits[1..]| ==> hits[1..][k] == hits[k + 1];
    }
    var rest := Merge(hits[1..], next);
    if h.start >= pos || h.end > pos {
      assert Merge(hits, pos) == [Edit(Max(h.start, pos), h.end, h.replacement)] + rest;
      if i == 0 {
        WrittenFirst(hits, pos);
      } else {
        h := MergeWrites(hits[1..], next, n, i - 1);
        assert Merge(hits, pos)[i] == rest[i - 1];
        WrittenLater(rest[i - 1], h, hits, next);
        StartsNeverBack(hits, pos, next);
      }
    } else {
      h := MergeWrites(hits[1..], next, n, i);
      WrittenLater(rest[i], h, hits, next);
    }
  }

  lemma StartsNeverBack(hits: seq<Hit>, pos: nat, next: nat)
    requires hits != [] && hits[0].start <= hits[0].end && (hits[0].start >= pos || hits[0].end > pos)
    requires next == hits[0].end
    ensures next >= pos
  {
  }

  /** Every edit of a text is written by the retained hit that wins over every other retained hit it meets. */
  lemma EditsWrite(b: seq<byte>, found: seq<Hit>, i: nat) returns (h: Hit)
    requires AllRanged(found, |b|) && i < |EditsOf(b, found)|
    ensures h in AllHits(b, found) && Retained(h, Spans(b, 0))
    ensures var e := EditsOf(b, found)[i];
            && e.replacement == h.replacement && e.end == h.end && h.start <= e.start
            && (forall g, p: nat :: g in AllHits(b, found) && Retained(g, Spans(b, 0)) ==>
                  e.start <= p < e.end && Covers(g, p) ==> Wins(h, g))
  {
    hide Spans, AllHits, Sort, Merge, Retain, AllRanged, Wins, Retained;
    var kept := Retain(AllHits(b, found), Spans(b, 0));
    RetainHolds(AllHits(b, found), Spans(b, 0), |b|);
    SortHolds(kept);
    SameMembers(Sort(kept), kept);
    SortedAreRanged(kept, |b|);
    h := MergeWrites(Sort(kept), 0, |b|, i);
  }

  // ---- Credentials ----

  /** No other rule's hit begins at or before `start` and reaches past it, but for a value rule's that begins
      right there, which the credential displaces. */
  predicate NothingReaches(found: seq<Hit>, start: nat) {
    forall h :: h in found && Covers(h, start) ==> h.start == start && h.name.None? && h.rule.OtherRule?
  }

  function RedactedAs(u: seq<byte>): seq<byte> {
    if 58 in u then Ascii("REDACTED:REDACTED") else Ascii("REDACTED")
  }

  lemma RedactionIs(u: seq<byte>)
    ensures Redaction(u) == RedactedAs(u)
  {
  }

  lemma CredentialHit(b: seq<byte>, found: seq<Hit>, start: nat, end: nat)
    requires AllRanged(found, |b|) && Credential(b, start, end)
    ensures var h := Hit(start, end, RedactedAs(b[start..end]), UrlUserinfo, None);
            h in AllHits(b, found) && Retained(h, Spans(b, 0))
    ensures Inside(Spans(b, 0), start)
  {
    hide Spans, Credential;
    SpansAreCredentials(b, start, end);
    SpansAreInText(b, 0);
    var spans := Spans(b, 0);
    var i :| 0 <= i < |spans| && spans[i] == Span(start, end);
    assert forall k :: 0 <= k < |spans| ==> spans[k] in spans;
    var hits := UserinfoHits(b, spans);
    assert hits[i] == Hit(start, end, RedactedAs(b[start..end]), UrlUserinfo, None);
    assert hits[i] in hits;
  }

  /** Of the credentials' own hits one at most covers a position. */
  lemma OneCredentialThere(b: seq<byte>, spans: seq<Span>, start: nat, end: nat, g: Hit)
    requires Apart(spans, 0) && forall k :: 0 <= k < |spans| ==> spans[k].start <= spans[k].end <= |b|
    requires Span(start, end) in spans && start < end <= |b| && g in UserinfoHits(b, spans) && Covers(g, start)
    ensures g == Hit(start, end, RedactedAs(b[start..end]), UrlUserinfo, None)
  {
    hide Apart, Redaction, RedactedAs;
    RedactionIs(b[start..end]);
    var hits := UserinfoHits(b, spans);
    var k :| 0 <= k < |hits| && hits[k] == g;
    var i :| 0 <= i < |spans| && spans[i] == Span(start, end);
    ApartIsSorted(spans, 0);
    assert k == i;
  }

  /** The one retained hit that covers where a credential starts is the credential's own. */
  lemma OnlyHitThere(b: seq<byte>, found: seq<Hit>, start: nat, end: nat, g: Hit)
    requires AllRanged(found, |b|) && Credential(b, start, end) && NothingReaches(found, start)
    requires g in AllHits(b, found) && Retained(g, Spans(b, 0)) && Covers(g, start)
    ensures end <= |b| && g == Hit(start, end, RedactedAs(b[start..end]), UrlUserinfo, None)
  {
    hide Spans, Credential, UserinfoHits, RedactedAs, Apart;
    CredentialHit(b, found, start, end);
    SpansAreCredentials(b, start, end);
    CredentialSpans(b, start, end);
    SpansAreInText(b, 0);
    SpansAreApart(b, 0);
    var spans := Spans(b, 0);
    assert forall k :: 0 <= k < |spans| ==> spans[k] in spans;
    if g !in found {
      OneCredentialThere(b, spans, start, end, g);
    }
  }

  lemma CoveredByEditAt(edits: seq<Edit>, p: nat) returns (i: nat)
    requires CoveredByEdit(edits, p)
    ensures i < |edits| && edits[i].start <= p < edits[i].end
  {
    i :| 0 <= i < |edits| && edits[i].start <= p < edits[i].end;
  }

  lemma {:induction false} SpliceAround(b: seq<byte>, edits: seq<Edit>, from: nat, to: nat, i: nat)
    requires InOrder(edits, from, to) && to <= |b| && i < |edits|
    ensures var e := edits[i];
            && InOrder(edits[..i], from, e.start) && InOrder(edits[i + 1..], e.end, to) && e.start <= e.end <= to
            && Splice(b, edits, from, to)
               == Splice(b, edits[..i], from, e.start) + e.replacement + Splice(b, edits[i + 1..], e.end, to)
    decreases |edits|
  {
    hide Splice;
    SpliceCons(b, edits, from, to);
    InOrderBounds(edits[1..], edits[0].end, to);
    if i == 0 {
      SpliceNothing(b, from, edits[0].start);
    } else {
      SpliceAround(b, edits[1..], edits[0].end, to, i - 1);
      var e := edits[i];
      assert edits[1..][i - 1] == e && edits[1..][i..] == edits[i + 1..];
      assert edits[..i][1..] == edits[1..][..i - 1] && edits[..i][0] == edits[0];
      InOrderBounds(edits[..i], from, e.start);
      SpliceCons(b, edits[..i], from, e.start);
      var head, mid, tail := b[from..edits[0].start] + edits[0].replacement,
                             Splice(b, edits[1..][..i - 1], edits[0].end, e.start),
                             Splice(b, edits[i + 1..], e.end, to);
      Assoc(head, mid + e.replacement, tail);
      Assoc(head, mid, e.replacement);
    }
  }

  /**
   No byte of a credential is left in the masked text; and unless another hit reaches into it from the front,
   what stands in its place is `REDACTED`, or `REDACTED:REDACTED` when it held a colon.
   */
  lemma CredentialsAreRedacted(b: seq<byte>, found: seq<Hit>, start: nat, end: nat)
    requires AllRanged(found, |b|) && Credential(b, start, end)
    ensures forall p: nat :: start <= p < end ==> CoveredByEdit(EditsOf(b, found), p)
    ensures InOrder(EditsOf(b, found), 0, |b|)
    ensures NothingReaches(found, start) ==>
              exists before, after ::
                && InOrder(before, 0, start) && InOrder(after, end, |b|)
                && Splice(b, EditsOf(b, found), 0, |b|)
                   == Splice(b, before, 0, start) + RedactedAs(b[start..end]) + Splice(b, after, end, |b|)
  {
    hide Spans, AllHits, EditsOf, Retained, AllRanged, Credential, NothingReaches, RedactedAs, Splice, InOrder;
    CredentialSpans(b, start, end);
    var u := Hit(start, end, RedactedAs(b[start..end]), UrlUserinfo, None);
    CredentialHit(b, found, start, end);
    EditsHold(b, found);
    var edits := EditsOf(b, found);
    forall p: nat | start <= p < end
      ensures CoveredByEdit(edits, p)
    {
      assert u.start <= p < u.end;
    }
    if NothingReaches(found, start) {
      var i := CoveredByEditAt(edits, start);
      var h := EditsWrite(b, found, i);
      OnlyHitThere(b, found, start, end, h);
      SpliceAround(b, edits, 0, |b|, i);
    }
  }

  lemma CredentialSpans(b: seq<byte>, start: nat, end: nat)
    requires Credential(b, start, end)
    ensures start < end < |b|
  {
  }

  // ---- The other hits ----

  ghost predicate WithinSome(b: seq<byte>, at: nat, start: nat, end: nat) {
    Credential(b, start, end) && start <= at <= end
  }

  /** Every hit found is masked to its last byte, but for a nameless one that begins in a credential or at its `@`. */
  lemma HitsAreMasked(b: seq<byte>, found: seq<Hit>, h: Hit, p: nat)
    requires AllRanged(found, |b|) && h in found && h.start <= p < h.end
    requires h.name.Some? || forall start, end :: !WithinSome(b, h.start, start, end)
    ensures CoveredByEdit(EditsOf(b, found), p)
  {
    hide Spans, EditsOf, WithinSome, AllRanged;
    EditsHold(b, found);
    InsideIsWithin(b, h.start);
  }

  lemma InsideIsWithin(b: seq<byte>, at: nat)
    ensures Inside(Spans(b, 0), at) ==> exists start, end :: WithinSome(b, at, start, end)
  {
    hide Spans, Credential;
    var spans := Spans(b, 0);
    if Inside(spans, at) {
      var i :| 0 <= i < |spans| && spans[i].start <= at <= spans[i].end;
      var Span(start, end) := spans[i];
      SpansAreCredentials(b, start, end);
      assert WithinSome(b, at, start, end);
    }
  }
}
