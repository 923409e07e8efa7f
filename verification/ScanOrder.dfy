/** The hits of the name scan come in text order and never overlap, whatever the text is. */
module ScanOrder {
  import opened Bytes
  import opened Options
  import opened EscapedJson
  import opened Splices
  import opened SecretContainer
  import opened Percent
  import opened NameScan
  import Utf8

  // ----- Stretches the scan finds nothing in -----

  predicate IsQuote(c: byte) {
    c == QUOTE || c == APOSTROPHE
  }

  /** No `=` and no quote from `lo` to `k`, nor a quote that white space before `lo` could lead back to. */
  predicate Quiet(b: seq<byte>, lo: nat, k: nat) {
    && lo <= k <= |b|
    && (forall j :: lo <= j < k ==> b[j] != EQUALS && !IsQuote(b[j]))
    && (lo == 0 || (!IsSpace(b[lo - 1]) && !IsQuote(b[lo - 1])))
  }

  /** A colon there ends no member name, since none can have closed before it. */
  lemma {:induction false} NoMember(b: seq<byte>, lo: nat, k: nat, j: nat)
    requires Quiet(b, lo, k) && lo <= j <= k
    ensures MemberBefore(b, j) == None
    ensures var r := BackOverSpace(b, j); r == 0 || !IsQuote(b[r - 1])
    decreases j
  {
    if j > lo && IsSpace(b[j - 1]) {
      NoMember(b, lo, k, j - 1);
    }
  }

  lemma QuietStep(b: seq<byte>, lo: nat, i: nat, k: nat, judge: Judge)
    requires Quiet(b, lo, k) && lo <= i < k
    ensures StepAt(b, i, judge) == NOTHING
  {
    hide FormAt, MemberBefore;
    NoMember(b, lo, k, i);
  }

  lemma NothingHere(b: seq<byte>, i: nat, judge: Judge)
    requires i < |b| && StepAt(b, i, judge) == NOTHING
    ensures ScanFrom(b, i, judge) == ScanFrom(b, i + 1, judge)
  {
    hide StepAt;
    var rest := ScanFrom(b, i + 1, judge);
    assert [] + rest == rest;
  }

  lemma {:induction false} QuietScan(b: seq<byte>, lo: nat, i: nat, k: nat, judge: Judge)
    requires Quiet(b, lo, k) && lo <= i <= k
    ensures ScanFrom(b, i, judge) == ScanFrom(b, k, judge)
    decreases k - i
  {
    hide StepAt, ScanFrom, Quiet;
    if i < k {
      QuietInText(b, lo, k);
      QuietStep(b, lo, i, k, judge);
      NothingHere(b, i, judge);
      QuietScan(b, lo, i + 1, k, judge);
    }
  }

  lemma QuietInText(b: seq<byte>, lo: nat, k: nat)
    requires Quiet(b, lo, k)
    ensures k <= |b|
  {
  }

  lemma {:induction false} ValueIsQuiet(b: seq<byte>, i: nat, secret: bool)
    requires i <= |b|
    ensures forall j :: i <= j < ValueEnd(b, i, secret) ==> !IsValueEnd(b[j]) && (secret || b[j] != EQUALS)
    decreases |b| - i
  {
    hide IsValueEnd;
    if ValueEnd(b, i, secret) > i {
      ValueIsQuiet(b, i + 1, secret);
    }
  }

  // ----- Order -----

  lemma {:induction false} InOrderConcat(one: seq<Edit>, two: seq<Edit>, from: nat, mid: nat, next: nat, to: nat)
    requires InOrder(one, from, mid) && mid <= next && InOrder(two, next, to)
    ensures InOrder(one + two, from, to)
    decreases |one|
  {
    if one == [] {
      assert one + two == two;
      InOrderBounds(two, next, to);
    } else {
      assert (one + two)[1..] == one[1..] + two;
      InOrderConcat(one[1..], two, one[0].end, mid, next, to);
    }
  }

  lemma {:induction false} InOrderWithin(hits: seq<Edit>, from: nat, to: nat, limit: nat)
    requires InOrder(hits, from, to) && to <= limit
    ensures InOrder(hits, from, limit)
    decreases |hits|
  {
    if hits != [] {
      InOrderWithin(hits[1..], hits[0].end, to, limit);
    }
  }

  lemma {:induction false} ShiftInOrder(hits: seq<Edit>, delta: nat, from: nat, to: nat)
    requires InOrder(hits, from, to)
    ensures InOrder(Shift(hits, delta), delta + from, delta + to)
    decreases |hits|
  {
    if hits != [] {
      ShiftInOrder(hits[1..], delta, hits[0].end, to);
      assert Shift(hits, delta)[1..] == Shift(hits[1..], delta);
    }
  }

  lemma PushedInOrder(b: seq<byte>, s: Scalar, quote: byte, level: nat, at: nat)
    requires at <= s.start <= s.end <= s.next <= |b|
    ensures InOrder(PushValue(b, s, quote, level), at, s.next)
  {
    hide Replacement;
    var pushed := PushValue(b, s, quote, level);
    assert pushed != [] ==> pushed[1..] == [];
  }

  /** The walk of a container replaces leaf after leaf. */
  lemma {:induction false} WalkInOrder(b: seq<byte>, i: nat, depth: nat, prev: byte, quote: byte, level: nat)
    requires i <= |b|
    ensures var (hits, end) := Walk(b, i, depth, prev, quote, level); i <= end <= |b| && InOrder(hits, i, end)
    decreases |b| - i
  {
    hide ScalarAt, IsKey, PushValue, IsSpace, StartsNumber, NumberMayFollow;
    if i < |b| {
      var c := b[i];
      if c == LBRACE || c == LBRACKET {
        WalkInOrder(b, i + 1, depth + 1, c, quote, level);
        Later(Walk(b, i, depth, prev, quote, level).0, i, i + 1, Walk(b, i, depth, prev, quote, level).1);
      } else if c == RBRACE || c == RBRACKET {
        var left := if depth == 0 then 0 else depth - 1;
        WalkInOrder(b, i + 1, left, c, quote, level);
        if left != 0 {
          Later(Walk(b, i, depth, prev, quote, level).0, i, i + 1, Walk(b, i, depth, prev, quote, level).1);
        }
      } else if c == COLON || c == COMMA {
        WalkInOrder(b, i + 1, depth, c, quote, level);
        Later(Walk(b, i, depth, prev, quote, level).0, i, i + 1, Walk(b, i, depth, prev, quote, level).1);
      } else if IsSpace(c) || (StartsNumber(c) && !NumberMayFollow(prev)) {
        WalkInOrder(b, i + 1, depth, prev, quote, level);
        Later(Walk(b, i, depth, prev, quote, level).0, i, i + 1, Walk(b, i, depth, prev, quote, level).1);
      } else {
        match ScalarAt(b, i, quote, level) {
          case None =>
            WalkInOrder(b, i + 1, depth, c, quote, level);
            Later(Walk(b, i, depth, prev, quote, level).0, i, i + 1, Walk(b, i, depth, prev, quote, level).1);
          case Some(s) =>
            WalkInOrder(b, s.next, depth, QUOTE, quote, level);
            PushedInOrder(b, s, quote, level, i);
            var pushed := if IsKey(b, s) then [] else PushValue(b, s, quote, level);
            var (more, end) := Walk(b, s.next, depth, QUOTE, quote, level);
            InOrderConcat(pushed, more, i, s.next, s.next, end);
        }
      }
    }
  }

  lemma Later(hits: seq<Edit>, from: nat, next: nat, to: nat)
    requires from <= next && InOrder(hits, next, to)
    ensures InOrder(hits, from, to)
  {
    InOrderBounds(hits, next, to);
  }

  /** A member's hits lie between its colon and where the scan resumes. */
  lemma JsonInOrder(b: seq<byte>, colon: nat, judge: Judge)
    requires colon < |b|
    ensures InOrder(JsonAt(b, colon, judge).hits, colon, Next(colon, JsonAt(b, colon, judge)))
  {
    hide MemberBefore, Walk, ScalarAt, PushValue, IsSpace;
    var f := JsonAt(b, colon, judge);
    if f.hits != [] {
      var m := MemberBefore(b, colon).value;
      var v := SkipSpace(b, colon + 1);
      if v < |b| && (b[v] == LBRACE || b[v] == LBRACKET) {
        WalkInOrder(b, v, 0, LBRACKET, m.quote, m.level);
        Later(f.hits, colon, v, f.resume.value);
      } else {
        PushedInOrder(b, ScalarAt(b, v, m.quote, m.level).value, m.quote, m.level, v);
        Later(f.hits, colon, v, f.resume.value);
      }
    }
  }

  /** What an argument yields: its own hit and a scan that resumes behind it, or the hits of what it carries. */
  lemma FormCases(b: seq<byte>, eq: nat, judge: Judge)
    requires eq < |b| && b[eq] == EQUALS
    ensures var f := FormAt(b, eq, judge);
      || f == NOTHING
      || (f.resume.Some? && f.resume.value > eq + 1 && f.hits == [Edit(eq + 1, f.resume.value, PLACEHOLDER)])
      || (var end := ValueEnd(b, eq + 1, false);
          f == Found(EncodedAt(b, eq + 1, end, judge), None) && Quiet(b, eq + 1, end))
  {
    hide NamesSecret, EncodedAt, ValueEnd;
    var end := ValueEnd(b, eq + 1, false);
    ValueIsQuiet(b, eq + 1, false);
    assert Quiet(b, eq + 1, end);
  }

  lemma EncodedInOrder(b: seq<byte>, start: nat, end: nat, judge: Judge)
    requires start <= end <= |b|
    ensures InOrder(EncodedAt(b, start, end, judge), start, end)
    decreases |b|, |b| - start, 0
  {
    hide Decode, Offset, ScanFrom, MapBack, Shift;
    var enc := b[start..end];
    var dec := Decode(enc);
    if |dec| != |enc| {
      Utf8.StandInKeepsOffsets(dec);
      var inner := ScanFrom(Utf8.StandIn(dec), 0, judge);
      ScanInOrder(Utf8.StandIn(dec), 0, judge);
      InOrderIsRanged(inner, 0, |dec|);
      MapBackInOrder(enc, inner, 0, |dec|);
      CutAtFront(enc);
      OffsetEnds(enc);
      ShiftInOrder(MapBack(enc, inner), start, 0, |enc|);
    }
  }

  /** From any position of any text, the scan's hits are in order, apart, and within the text. */
  lemma {:induction false} ScanInOrder(b: seq<byte>, i: nat, judge: Judge)
    requires i <= |b|
    ensures InOrder(ScanFrom(b, i, judge), i, |b|)
    decreases |b|, |b| - i, 1
  {
    hide FormAt, JsonAt, EncodedAt, InOrder, ValueEnd;
    if i == |b| {
      NothingInOrder(i, i);
    } else {
      var f := StepAt(b, i, judge);
      var next := Next(i, f);
      if b[i] == EQUALS {
        FormCases(b, i, judge);
        if f.resume.None? && f != NOTHING {
          var end := ValueEnd(b, i + 1, false);
          EncodedInOrder(b, i + 1, end, judge);
          QuietScan(b, i + 1, i + 1, end, judge);
          ScanInOrder(b, end, judge);
          InOrderConcat(f.hits, ScanFrom(b, end, judge), i + 1, end, end, |b|);
          Later(f.hits + ScanFrom(b, end, judge), i, i + 1, |b|);
          return;
        }
        FormHitInOrder(i, f, next);
      } else if b[i] == COLON {
        JsonInOrder(b, i, judge);
      } else {
        NothingInOrder(i, next);
      }
      ScanInOrder(b, next, judge);
      InOrderConcat(f.hits, ScanFrom(b, next, judge), i, next, next, |b|);
    }
  }

  lemma NothingInOrder(from: nat, to: nat)
    requires from <= to
    ensures InOrder([], from, to)
  {
  }

  lemma FormHitInOrder(i: nat, f: Found, next: nat)
    requires f == NOTHING ||
             (f.resume.Some? && f.resume.value > i + 1 && f.hits == [Edit(i + 1, f.resume.value, PLACEHOLDER)])
    requires next == Next(i, f)
    ensures InOrder(f.hits, i, next)
  {
    assert f.hits != [] ==> f.hits[1..] == [];
  }
}
