/** How all hits on one text become one list of edits, and what the edits do to it. */
module MaskEdits {
  import opened Bytes
  import opened Options
  import opened Splices
  import opened Userinfo
  import Utf8

  datatype Rule = UrlUserinfo | OtherRule(code: nat)

  /** A stretch some rule wants replaced. Name rules say which argument it was. */
  datatype Hit = Hit(start: nat, end: nat, replacement: seq<byte>, rule: Rule, name: Option<string>)

  predicate Ranged(h: Hit, n: nat) {
    h.start <= h.end <= n
  }

  predicate AllRanged(hits: seq<Hit>, n: nat) {
    forall i :: 0 <= i < |hits| ==> Ranged(hits[i], n)
  }

  // ---- Value hits that begin inside a userinfo ----

  /** Whether a position is in a userinfo span, or is the `@` after it. */
  predicate Inside(spans: seq<Span>, at: nat) {
    exists i :: 0 <= i < |spans| && spans[i].start <= at <= spans[i].end
  }

  predicate Retained(h: Hit, spans: seq<Span>) {
    h.rule.UrlUserinfo? || h.name.Some? || !Inside(spans, h.start)
  }

  function Retain(hits: seq<Hit>, spans: seq<Span>): seq<Hit> {
    if hits == [] then []
    else (if Retained(hits[0], spans) then [hits[0]] else []) + Retain(hits[1..], spans)
  }

  lemma {:induction false} ApartIsSorted(spans: seq<Span>, from: nat)
    requires Apart(spans, from)
    ensures forall i :: 0 <= i < |spans| ==> from <= spans[i].start < spans[i].end
    ensures forall i, j :: 0 <= i < j < |spans| ==> spans[i].end < spans[j].start
  {
    if spans != [] {
      ApartIsSorted(spans[1..], spans[0].end + 1);
      assert forall i :: 1 <= i < |spans| ==> spans[i] == spans[1..][i - 1];
    }
  }

  /** The number of spans that start at or before `at`, by bisection. */
  method PartitionPoint(spans: seq<Span>, at: nat) returns (i: nat)
    requires Apart(spans, 0)
    ensures i <= |spans|
    ensures forall j :: 0 <= j < i ==> spans[j].start <= at
    ensures forall j :: i <= j < |spans| ==> at < spans[j].start
  {
    ApartIsSorted(spans, 0);
    var lo, hi := 0, |spans|;
    while lo < hi
      invariant 0 <= lo <= hi <= |spans|
      invariant forall j :: 0 <= j < lo ==> spans[j].start <= at
      invariant forall j :: hi <= j < |spans| ==> at < spans[j].start
    {
      var mid := (lo + hi) / 2;
      if spans[mid].start <= at {
        lo := mid + 1;
      } else {
        hi := mid;
      }
    }
    i := lo;
  }

  /** Keeps exactly the name hits, the userinfo hits, and the value hits that begin in no userinfo. */
  method RetainHits(hits: seq<Hit>, spans: seq<Span>) returns (kept: seq<Hit>)
    requires Apart(spans, 0)
    ensures kept == Retain(hits, spans)
  {
    hide Retain, Inside, Apart;
    kept := [];
    var k := 0;
    ghost var rest := hits;
    assert [] + Retain(hits, spans) == Retain(hits, spans);
    while k < |hits|
      invariant 0 <= k <= |hits| && rest == hits[k..]
      invariant Retain(hits, spans) == kept + Retain(rest, spans)
    {
      var h := hits[k];
      assert rest[0] == h && rest[1..] == hits[k + 1..];
      RetainStep(rest, spans);
      Assoc(kept, if Retained(h, spans) then [h] else [], Retain(rest[1..], spans));
      var keep := true;
      if h.rule != UrlUserinfo && h.name.None? {
        var i := PartitionPoint(spans, h.start);
        keep := i == 0 || h.start > spans[i - 1].end;
        LastSpanDecides(spans, h.start, i);
      }
      if keep {
        kept := kept + [h];
      } else {
        assert kept + [] == kept;
      }
      k := k + 1;
      rest := rest[1..];
    }
    RetainNothing(rest, spans);
    assert kept + [] == kept;
  }

  lemma RetainStep(hits: seq<Hit>, spans: seq<Span>)
    requires hits != []
    ensures Retain(hits, spans) == (if Retained(hits[0], spans) then [hits[0]] else []) + Retain(hits[1..], spans)
  {
  }

  lemma RetainNothing(hits: seq<Hit>, spans: seq<Span>)
    requires hits == []
    ensures Retain(hits, spans) == []
  {
  }

  /** Of sorted spans, only the last that starts at or before a position can hold it. */
  lemma LastSpanDecides(spans: seq<Span>, at: nat, i: nat)
    requires Apart(spans, 0) && i <= |spans|
    requires forall j :: 0 <= j < i ==> spans[j].start <= at
    requires forall j :: i <= j < |spans| ==> at < spans[j].start
    ensures Inside(spans, at) <==> i > 0 && at <= spans[i - 1].end
  {
    hide Apart;
    ApartIsSorted(spans, 0);
    forall j | 0 <= j < |spans| && spans[j].start <= at <= spans[j].end
      ensures i > 0 && at <= spans[i - 1].end
    {
      assert j < i && spans[i - 1].start <= at;
    }
  }

  lemma {:induction false} RetainHolds(hits: seq<Hit>, spans: seq<Span>, n: nat)
    requires AllRanged(hits, n)
    ensures forall h :: h in Retain(hits, spans) <==> h in hits && Retained(h, spans)
    ensures AllRanged(Retain(hits, spans), n)
  {
    if hits != [] {
      assert AllRanged(hits[1..], n);
      RetainHolds(hits[1..], spans, n);
      assert hits == [hits[0]] + hits[1..];
      forall i | 0 <= i < |Retain(hits, spans)|
        ensures Ranged(Retain(hits, spans)[i], n)
      {
        assert Retain(hits, spans)[i] in Retain(hits, spans);
        var h := Retain(hits, spans)[i];
        var j :| 0 <= j < |hits| && hits[j] == h;
      }
    }
  }

  // ---- Order ----

  /** Leftmost first; on ties the longer, and on an identical range the name rule's. */
  predicate Before(a: Hit, b: Hit) {
    || a.start < b.start
    || (a.start == b.start && (a.end > b.end || (a.end == b.end && (a.name.Some? || b.name.None?))))
  }

  predicate Sorted(hits: seq<Hit>) {
    |hits| <= 1 || (Before(hits[0], hits[1]) && Sorted(hits[1..]))
  }

  /** A stable sort: a hit goes after every hit it does not have to precede. */
  function Insert(h: Hit, hits: seq<Hit>): seq<Hit> {
    if hits == [] || Before(h, hits[0]) then [h] + hits else [hits[0]] + Insert(h, hits[1..])
  }

  function Sort(hits: seq<Hit>): seq<Hit> {
    if hits == [] then [] else Insert(hits[0], Sort(hits[1..]))
  }

  lemma {:induction false} InsertHolds(h: Hit, hits: seq<Hit>)
    requires Sorted(hits)
    ensures Sorted(Insert(h, hits)) && multiset(Insert(h, hits)) == multiset{h} + multiset(hits)
    ensures Insert(h, hits)[0] == if hits == [] || Before(h, hits[0]) then h else hits[0]
  {
    if hits == [] || Before(h, hits[0]) {
      assert ([h] + hits)[1..] == hits;
    } else {
      InsertHolds(h, hits[1..]);
      var rest := Insert(h, hits[1..]);
      assert hits == [hits[0]] + hits[1..];
      assert ([hits[0]] + rest)[1..] == rest;
    }
  }

  lemma {:induction false} SortHolds(hits: seq<Hit>)
    ensures Sorted(Sort(hits)) && multiset(Sort(hits)) == multiset(hits)
  {
    hide Insert, Before;
    if hits != [] {
      SortHolds(hits[1..]);
      InsertHolds(hits[0], Sort(hits[1..]));
      assert hits == [hits[0]] + hits[1..];
      assert multiset(hits) == multiset{hits[0]} + multiset(hits[1..]);
    }
  }

  // ---- Merging ----

  /** The edits sorted hits come to, once everything before `pos` is settled. */
  function Merge(hits: seq<Hit>, pos: nat): seq<Edit> {
    if hits == [] then []
    else
      var h := hits[0];
      if h.start >= pos then [Edit(h.start, h.end, h.replacement)] + Merge(hits[1..], h.end)
      else if h.end > pos then [Edit(pos, h.end, h.replacement)] + Merge(hits[1..], h.end)
      else Merge(hits[1..], pos)
  }

  method MergeHits(hits: seq<Hit>) returns (edits: seq<Edit>, count: nat)
    ensures edits == Merge(hits, 0) && count == |edits|
  {
    edits, count := [], 0;
    var pos, k := 0, 0;
    assert hits[0..] == hits && [] + Merge(hits, 0) == Merge(hits, 0);
    while k < |hits|
      invariant 0 <= k <= |hits|
      invariant Merge(hits, 0) == edits + Merge(hits[k..], pos)
      invariant count == |edits|
    {
      var h := hits[k];
      assert hits[k..][1..] == hits[k + 1..];
      ghost var rest := Merge(hits[k + 1..], if h.start >= pos || h.end > pos then h.end else pos);
      if h.start < pos {
        // An overlapped hit still masks its remainder.
        if h.end > pos {
          Assoc(edits, [Edit(pos, h.end, h.replacement)], rest);
          edits := edits + [Edit(pos, h.end, h.replacement)];
          pos := h.end;
          count := count + 1;
        }
      } else {
        Assoc(edits, [Edit(h.start, h.end, h.replacement)], rest);
        pos := h.end;
        count := count + 1;
        edits := edits + [Edit(h.start, h.end, h.replacement)];
      }
      k := k + 1;
    }
    assert edits + [] == edits;
  }

  predicate CoveredByHit(hits: seq<Hit>, p: nat) {
    exists i :: 0 <= i < |hits| && hits[i].start <= p < hits[i].end
  }

  predicate CoveredByEdit(edits: seq<Edit>, p: nat) {
    exists i :: 0 <= i < |edits| && edits[i].start <= p < edits[i].end
  }

  lemma {:induction false} SortedStarts(hits: seq<Hit>)
    requires Sorted(hits)
    ensures forall i :: 0 <= i < |hits| ==> hits[0].start <= hits[i].start
  {
    if |hits| > 1 {
      SortedStarts(hits[1..]);
      assert forall i :: 1 <= i < |hits| ==> hits[i] == hits[1..][i - 1];
    }
  }

  lemma CoverCons(h: Hit, hits: seq<Hit>, p: nat)
    requires hits != [] && h == hits[0]
    ensures CoveredByHit(hits, p) <==> (h.start <= p < h.end) || CoveredByHit(hits[1..], p)
  {
    assert forall i :: 1 <= i < |hits| ==> hits[i] == hits[1..][i - 1];
    if CoveredByHit(hits[1..], p) {
      var i :| 0 <= i < |hits[1..]| && hits[1..][i].start <= p < hits[1..][i].end;
      assert hits[i + 1] == hits[1..][i];
    }
  }

  lemma EditCons(e: Edit, edits: seq<Edit>, p: nat)
    ensures CoveredByEdit([e] + edits, p) <==> (e.start <= p < e.end) || CoveredByEdit(edits, p)
  {
    var all := [e] + edits;
    assert forall i :: 1 <= i < |all| ==> all[i] == edits[i - 1];
    if CoveredByEdit(edits, p) {
      var i :| 0 <= i < |edits| && edits[i].start <= p < edits[i].end;
      assert all[i + 1] == edits[i];
    }
    if e.start <= p < e.end {
      assert all[0] == e;
    }
  }

  /** In order, apart and within the text; and they cover what the hits cover, neither more nor less. */
  lemma {:induction false} MergeHolds(hits: seq<Hit>, pos: nat, n: nat)
    requires Sorted(hits) && AllRanged(hits, n) && pos <= n
    ensures InOrder(Merge(hits, pos), pos, n)
    ensures forall p :: p >= pos ==> (CoveredByEdit(Merge(hits, pos), p) <==> CoveredByHit(hits, p))
  {
    if hits != [] {
      var h := hits[0];
      var next := if h.start >= pos || h.end > pos then h.end else pos;
      assert forall i :: 0 <= i < |hits[1..]| ==> hits[1..][i] == hits[i + 1];
      MergeHolds(hits[1..], next, n);
      SortedStarts(hits);
      var rest := Merge(hits[1..], next);
      if h.start >= pos || h.end > pos {
        var e := Edit(Max(h.start, pos), h.end, h.replacement);
        assert Merge(hits, pos) == [e] + rest;
        assert ([e] + rest)[1..] == rest;
        forall p | p >= pos
          ensures CoveredByEdit(Merge(hits, pos), p) <==> CoveredByHit(hits, p)
        {
          EditCons(e, rest, p);
          CoverCons(h, hits, p);
          if p < next {
            NothingBefore(rest, next, n, p);
            if CoveredByHit(hits[1..], p) {
              assert h.start <= p;
            }
          }
        }
      } else {
        forall p | p >= pos
          ensures CoveredByEdit(Merge(hits, pos), p) <==> CoveredByHit(hits, p)
        {
          CoverCons(h, hits, p);
        }
      }
    }
  }

  lemma {:induction false} NothingBefore(edits: seq<Edit>, from: nat, n: nat, p: nat)
    requires InOrder(edits, from, n) && p < from
    ensures !CoveredByEdit(edits, p)
  {
    if edits != [] {
      NothingBefore(edits[1..], edits[0].end, n, p);
      assert forall i :: 1 <= i < |edits| ==> edits[i] == edits[1..][i - 1];
    }
  }

  // ---- One text ----

  /** A userinfo span as a hit. */
  function UserinfoHits(b: seq<byte>, spans: seq<Span>): (r: seq<Hit>)
    requires forall i :: 0 <= i < |spans| ==> spans[i].start <= spans[i].end <= |b|
    ensures AllRanged(r, |b|)
  {
    seq(|spans|, i requires 0 <= i < |spans| =>
      Hit(spans[i].start, spans[i].end, Redaction(b[spans[i].start..spans[i].end]), UrlUserinfo, None))
  }

  lemma {:induction false} SpansAreInText(b: seq<byte>, from: nat)
    ensures forall s :: s in Spans(b, from) ==> s.start <= s.end <= |b|
    decreases |b| - from
  {
    match NextSeparator(b, from)
    case None =>
    case Some(sep) => SpansAreInText(b, sep + 3);
  }

  function AllHits(b: seq<byte>, found: seq<Hit>): (r: seq<Hit>)
    requires AllRanged(found, |b|)
    ensures AllRanged(r, |b|)
  {
    SpansAreInText(b, 0);
    var spans := Spans(b, 0);
    assert forall i :: 0 <= i < |spans| ==> spans[i] in spans;
    found + UserinfoHits(b, spans)
  }

  /** Every replacement a text needs: `found` is what the value and name rules hit. */
  function EditsOf(b: seq<byte>, found: seq<Hit>): seq<Edit>
    requires AllRanged(found, |b|)
  {
    Merge(Sort(Retain(AllHits(b, found), Spans(b, 0))), 0)
  }

  method Edits(b: seq<byte>, found: seq<Hit>) returns (edits: seq<Edit>, count: nat)
    requires AllRanged(found, |b|)
    ensures edits == EditsOf(b, found) && count == |edits|
  {
    var spans := FindSpans(b);
    SpansAreApart(b, 0);
    SpansAreInText(b, 0);
    assert forall i :: 0 <= i < |spans| ==> spans[i] in spans;
    var hits := found + UserinfoHits(b, spans);
    var kept := RetainHits(hits, spans);
    edits, count := MergeHits(Sort(kept));
  }

  /** The text with its edits made; `None` when it needs none. */
  method MaskText(b: seq<byte>, found: seq<Hit>) returns (out: Option<seq<byte>>, count: nat)
    requires AllRanged(found, |b|)
    ensures var edits := EditsOf(b, found);
            && count == |edits|
            && InOrder(edits, 0, |b|)
            && out == if edits == [] then None else Some(Splice(b, edits, 0, |b|))
  {
    var edits;
    edits, count := Edits(b, found);
    EditsHold(b, found);
    if edits == [] {
      return None, count;
    }
    var text := ApplyEdits(b, edits);
    return Some(text), count;
  }

  method ApplyEdits(b: seq<byte>, edits: seq<Edit>) returns (text: seq<byte>)
    requires InOrder(edits, 0, |b|)
    ensures text == Splice(b, edits, 0, |b|)
  {
    text := [];
    var pos: nat := 0;
    var k := 0;
    assert edits[0..] == edits && [] + Splice(b, edits, 0, |b|) == Splice(b, edits, 0, |b|);
    while k < |edits|
      invariant 0 <= k <= |edits|
      invariant InOrder(edits[k..], pos, |b|)
      invariant Splice(b, edits, 0, |b|) == text + Splice(b, edits[k..], pos, |b|)
    {
      assert edits[k..][1..] == edits[k + 1..];
      var e := edits[k];
      InOrderBounds(edits[k + 1..], e.end, |b|);
      Assoc(text, b[pos..e.start] + e.replacement, Splice(b, edits[k + 1..], e.end, |b|));
      Assoc(text, b[pos..e.start], e.replacement);
      text := text + b[pos..e.start] + e.replacement;
      pos := e.end;
      k := k + 1;
    }
    assert edits[k..] == [];
    assert b[pos..|b|] == b[pos..];
    text := text + b[pos..];
  }

  /** Bytes that may not be text: judged as a text of the same length, with the edits made on the bytes
      themselves. `find` is what the value and name rules hit in a text. */
  method MaskBytes(bytes: seq<byte>, find: seq<byte> -> seq<Hit>) returns (out: Option<seq<byte>>, count: nat)
    requires var text := Utf8.StandIn(bytes); AllRanged(find(text), |text|)
    ensures var text := Utf8.StandIn(bytes);
            var edits := EditsOf(text, find(text));
            && |text| == |bytes| && Utf8.Valid(text)
            && count == |edits|
            && InOrder(edits, 0, |bytes|)
            && out == if edits == [] then None else Some(Splice(bytes, edits, 0, |bytes|))
  {
    hide Merge, Sort, Retain, Spans, AllHits, Utf8.StandIn, Utf8.Valid, Splice;
    if Utf8.Valid(bytes) {
      Utf8.ValidStandsIn(bytes);
    }
    Utf8.StandInKeepsOffsets(bytes);
    Utf8.StandInIsValid(bytes);
    var text := if Utf8.Valid(bytes) then bytes else Utf8.StandIn(bytes);
    var found := find(text);
    var edits;
    edits, count := Edits(text, found);
    EditsHold(text, found);
    if edits == [] {
      return None, count;
    }
    var masked := ApplyEdits(bytes, edits);
    return Some(masked), count;
  }

  /**
   The edits are in order and apart, and they cover exactly the bytes of the retained hits: the name hits,
   the userinfo hits, and the value hits that begin in no userinfo and not at its `@`.
   */
  lemma EditsHold(b: seq<byte>, found: seq<Hit>)
    requires AllRanged(found, |b|)
    ensures var spans := Spans(b, 0);
            var all := AllHits(b, found);
            var edits := EditsOf(b, found);
            && InOrder(edits, 0, |b|)
            && (forall p: nat :: CoveredByEdit(edits, p) <==> CoveredByRetained(all, spans, p))
  {
    hide Spans, AllHits, Sort, Merge, Retain, AllRanged;
    var spans, all := Spans(b, 0), AllHits(b, found);
    var kept := Retain(all, spans);
    RetainHolds(all, spans, |b|);
    SortHolds(kept);
    SameMembers(Sort(kept), kept);
    SortedAreRanged(kept, |b|);
    MergeHolds(Sort(kept), 0, |b|);
    forall p: nat
      ensures CoveredByEdit(Merge(Sort(kept), 0), p) <==> CoveredByRetained(all, spans, p)
    {
      CoverIsMembership(Sort(kept), p);
    }
  }

  predicate CoveredByRetained(hits: seq<Hit>, spans: seq<Span>, p: nat) {
    exists h :: h in hits && Retained(h, spans) && h.start <= p < h.end
  }

  lemma CoverIsMembership(hits: seq<Hit>, p: nat)
    ensures CoveredByHit(hits, p) <==> exists h :: h in hits && h.start <= p < h.end
  {
    if h :| h in hits && h.start <= p < h.end {
      var i :| 0 <= i < |hits| && hits[i] == h;
    }
  }

  lemma SortedAreRanged(hits: seq<Hit>, n: nat)
    requires AllRanged(hits, n)
    ensures AllRanged(Sort(hits), n)
  {
    SortHolds(hits);
    SameMembers(Sort(hits), hits);
    forall i | 0 <= i < |Sort(hits)|
      ensures Ranged(Sort(hits)[i], n)
    {
      assert Sort(hits)[i] in hits;
      var j :| 0 <= j < |hits| && hits[j] == Sort(hits)[i];
    }
  }

  lemma SameMembers(a: seq<Hit>, b: seq<Hit>)
    requires multiset(a) == multiset(b)
    ensures forall h :: h in a <==> h in b
  {
    forall h
      ensures h in a <==> h in b
    {
      assert h in a <==> h in multiset(a);
      assert h in b <==> h in multiset(b);
    }
  }
}
