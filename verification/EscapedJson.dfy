/**
 JSON inside JSON strings. Embedding a text in a string puts a backslash before each of its quotes and
 backslashes, so a document nested n deep carries 2^n - 1 backslashes before each of its own quotes.
 `ScalarAt` reads one scalar of such a document straight from the outer text.
 */
module EscapedJson {
  import opened Bytes
  import opened Options

  const BACKSLASH: byte := 92
  const QUOTE: byte := 34
  const APOSTROPHE: byte := 39

  // ---- Writing: what embedding does to a text ----

  function Backslashes(n: nat): (r: seq<byte>)
    ensures |r| == n && forall i :: 0 <= i < n ==> r[i] == BACKSLASH
  {
    seq(n, _ => BACKSLASH)
  }

  function EscapeByte(c: byte): seq<byte> {
    if c == BACKSLASH || c == QUOTE then [BACKSLASH, c] else [c]
  }

  /** A text as the content of a JSON string (section 7 of RFC 8259). */
  function Escape(s: seq<byte>): seq<byte> {
    if s == [] then [] else EscapeByte(s[0]) + Escape(s[1..])
  }

  function Nest(n: nat, s: seq<byte>): seq<byte> {
    if n == 0 then s else Escape(Nest(n - 1, s))
  }

  /** Backslashes before a quote of a document nested `n` deep. */
  function Level(n: nat): nat {
    Pow2(n) - 1
  }

  /** The content of a string literal: plain bytes, and backslashes each followed by the byte it escapes. */
  predicate IsBody(s: seq<byte>) {
    if s == [] then true
    else if s[0] == BACKSLASH then |s| >= 2 && IsBody(s[2..])
    else s[0] != QUOTE && IsBody(s[1..])
  }

  function Literal(body: seq<byte>): seq<byte> {
    [QUOTE] + body + [QUOTE]
  }

  // ---- The closed form of nesting ----

  function ExpandByte(h: nat, c: byte): (r: seq<byte>)
    requires h >= 1
    ensures r != []
  {
    if c == BACKSLASH then Backslashes(h)
    else if c == QUOTE then Backslashes(h - 1) + [QUOTE]
    else [c]
  }

  function Expand(h: nat, s: seq<byte>): seq<byte>
    requires h >= 1
  {
    if s == [] then [] else ExpandByte(h, s[0]) + Expand(h, s[1..])
  }

  lemma {:induction false} EscapeConcat(a: seq<byte>, b: seq<byte>)
    ensures Escape(a + b) == Escape(a) + Escape(b)
  {
    if a == [] {
      assert a + b == b;
    } else {
      EscapeConcat(a[1..], b);
      assert (a + b)[1..] == a[1..] + b;
      Assoc(EscapeByte(a[0]), Escape(a[1..]), Escape(b));
    }
  }

  lemma {:induction false} ExpandConcat(h: nat, a: seq<byte>, b: seq<byte>)
    requires h >= 1
    ensures Expand(h, a + b) == Expand(h, a) + Expand(h, b)
  {
    if a == [] {
      assert a + b == b;
    } else {
      ExpandConcat(h, a[1..], b);
      assert (a + b)[1..] == a[1..] + b;
      Assoc(ExpandByte(h, a[0]), Expand(h, a[1..]), Expand(h, b));
    }
  }

  lemma {:induction false} EscapeBackslashes(n: nat)
    ensures Escape(Backslashes(n)) == Backslashes(2 * n)
  {
    if n > 0 {
      EscapeBackslashes(n - 1);
      assert Backslashes(n)[1..] == Backslashes(n - 1);
    }
  }

  lemma EscapeExpandedByte(h: nat, c: byte)
    requires h >= 1
    ensures Escape(ExpandByte(h, c)) == ExpandByte(2 * h, c)
  {
    if c == BACKSLASH {
      EscapeBackslashes(h);
    } else if c == QUOTE {
      EscapeConcat(Backslashes(h - 1), [QUOTE]);
      EscapeBackslashes(h - 1);
      assert Escape([QUOTE]) == [BACKSLASH, QUOTE] + Escape([]);
    } else {
      assert Escape([c]) == [c] + Escape([]);
    }
  }

  lemma {:induction false} EscapeExpand(h: nat, s: seq<byte>)
    requires h >= 1
    ensures Escape(Expand(h, s)) == Expand(2 * h, s)
  {
    if s != [] {
      EscapeConcat(ExpandByte(h, s[0]), Expand(h, s[1..]));
      EscapeExpandedByte(h, s[0]);
      EscapeExpand(h, s[1..]);
    }
  }

  lemma {:induction false} ExpandOnce(s: seq<byte>)
    ensures Expand(1, s) == s
  {
    if s != [] {
      ExpandOnce(s[1..]);
    }
  }

  /** Escaping n times doubles every run n times. */
  lemma {:induction false} NestIsExpand(n: nat, s: seq<byte>)
    ensures Nest(n, s) == Expand(Pow2(n), s)
  {
    if n == 0 {
      ExpandOnce(s);
    } else {
      NestIsExpand(n - 1, s);
      EscapeExpand(Pow2(n - 1), s);
    }
  }

  // ---- Reading: one scalar of the nested document ----

  /** Length of the run of backslashes that ends `s`. */
  function RunLength(s: seq<byte>): (n: nat)
    ensures n <= |s|
  {
    if s == [] || s[|s| - 1] != BACKSLASH then 0 else 1 + RunLength(s[..|s| - 1])
  }

  datatype Scalar = Scalar(start: nat, end: nat, next: nat, isString: bool)

  predicate IsDigit(c: byte) {
    48 <= c <= 57
  }

  predicate StartsNumber(c: byte) {
    c == 45 || IsDigit(c)
  }

  /** Digits and `. e E + -`. */
  predicate InNumber(c: byte) {
    IsDigit(c) || c == 46 || c == 101 || c == 69 || c == 43 || c == 45
  }

  function NumberEnd(b: seq<byte>, i: nat): (e: nat)
    requires i <= |b|
    ensures i <= e <= |b|
    decreases |b| - i
  {
    if i < |b| && InNumber(b[i]) then NumberEnd(b, i + 1) else i
  }

  /** `n % m`, by subtraction: arithmetic the solver keeps linear. */
  function Remainder(n: nat, m: nat): nat
    requires m > 0
  {
    if n < m then n else Remainder(n - m, m)
  }

  lemma {:induction false} RemainderIsModulo(n: nat, m: nat)
    requires m > 0
    ensures Remainder(n, m) == n % m
  {
    if n >= m {
      RemainderIsModulo(n - m, m);
      RemainderOf((n - m) / m + 1, m, (n - m) % m);
      OneMore((n - m) / m, m);
    }
  }

  lemma OneMore(k: nat, m: nat)
    ensures (k + 1) * m == k * m + m
  {
  }

  /** Whether the quote at `i` closes the string whose content starts at `start`. */
  predicate Closes(b: seq<byte>, q: byte, start: nat, level: nat, i: nat)
    requires i < |b|
  {
    b[i] == q && Remainder(RunLength(b[..i]), 2 * (level + 1)) == level && i >= start + level
  }

  function FindClose(b: seq<byte>, q: byte, start: nat, level: nat, i: nat): (r: Option<nat>)
    requires i <= |b|
    ensures r.Some? ==> i <= r.value < |b| && r.value >= start + level
    decreases |b| - i
  {
    if i == |b| then None
    else if Closes(b, q, start, level, i) then Some(i)
    else FindClose(b, q, start, level, i + 1)
  }

  predicate OpensAt(b: seq<byte>, at: nat, quote: byte, level: nat) {
    && at + level < |b|
    && (forall j :: at <= j < at + level ==> b[j] == BACKSLASH)
    && (b[at + level] == quote || (level == 0 && (b[at + level] == QUOTE || b[at + level] == APOSTROPHE)))
  }

  /** The scalar at `at`: a number's digits, or a string's content; a string that never closes runs to the end. */
  function ScalarAt(b: seq<byte>, at: nat, quote: byte, level: nat): (r: Option<Scalar>)
    ensures r.Some? ==> at <= r.value.start <= r.value.end <= r.value.next <= |b| && at < r.value.next
  {
    if at >= |b| then None
    else if StartsNumber(b[at]) then
      var e := NumberEnd(b, at + 1);
      Some(Scalar(at, e, e, false))
    else if !OpensAt(b, at, quote, level) then None
    else
      var start := at + level + 1;
      match FindClose(b, b[at + level], start, level, start)
      case Some(i) => Some(Scalar(start, i - level, i + 1, true))
      case None => Some(Scalar(start, |b|, |b|, true))
  }

  /** The close found is the first quote that closes; when none is found, none does. */
  lemma {:induction false} FindCloseIsFirst(b: seq<byte>, q: byte, start: nat, level: nat, i: nat)
    requires i <= |b|
    ensures match FindClose(b, q, start, level, i)
            case Some(c) => Closes(b, q, start, level, c) && forall j :: i <= j < c ==> !Closes(b, q, start, level, j)
            case None => forall j :: i <= j < |b| ==> !Closes(b, q, start, level, j)
    decreases |b| - i
  {
    if i < |b| && !Closes(b, q, start, level, i) {
      FindCloseIsFirst(b, q, start, level, i + 1);
    }
  }

  method BackslashesBefore(b: seq<byte>, pos: nat) returns (n: nat)
    requires pos <= |b|
    ensures n == RunLength(b[..pos])
  {
    n := 0;
    while n < pos && b[pos - 1 - n] == BACKSLASH
      invariant n <= pos
      invariant RunLength(b[..pos]) == n + RunLength(b[..pos - n])
    {
      assert b[..pos - n][..pos - n - 1] == b[..pos - (n + 1)];
      n := n + 1;
    }
  }

  method ReadScalar(b: seq<byte>, at: nat, quote: byte, level: nat) returns (r: Option<Scalar>)
    ensures r == ScalarAt(b, at, quote, level)
  {
    if at >= |b| {
      return None;
    }
    var first := b[at];
    if StartsNumber(first) {
      var e := at + 1;
      while e < |b| && InNumber(b[e])
        invariant at < e <= |b|
        invariant NumberEnd(b, e) == NumberEnd(b, at + 1)
      {
        e := e + 1;
      }
      return Some(Scalar(at, e, e, false));
    }
    if at + level >= |b| {
      return None;
    }
    var j := at;
    while j < at + level
      invariant at <= j <= at + level
      invariant forall k :: at <= k < j ==> b[k] == BACKSLASH
    {
      if b[j] != BACKSLASH {
        return None;
      }
      j := j + 1;
    }
    var q := b[at + level];
    if !(q == quote || (level == 0 && (q == QUOTE || q == APOSTROPHE))) {
      return None;
    }
    var start := at + level + 1;
    var modulus := 2 * (level + 1);
    var i := start;
    while i < |b|
      invariant start <= i <= |b|
      invariant FindClose(b, q, start, level, i) == FindClose(b, q, start, level, start)
    {
      if b[i] == q {
        var run := BackslashesBefore(b, i);
        RemainderIsModulo(run, modulus);
        if run % modulus == level && i >= start + level {
          return Some(Scalar(start, i - level, i + 1, true));
        }
      }
      i := i + 1;
    }
    return Some(Scalar(start, |b|, |b|, true));
  }

  // ---- Reading undoes writing ----

  lemma {:induction false} StepOverBackslashes(b: seq<byte>, start: nat, level: nat, i: nat, n: nat)
    requires i + n <= |b| && (forall j :: i <= j < i + n ==> b[j] == BACKSLASH)
    ensures FindClose(b, QUOTE, start, level, i) == FindClose(b, QUOTE, start, level, i + n)
    ensures RunLength(b[..i + n]) == RunLength(b[..i]) + n
    decreases n
  {
    if n > 0 {
      assert b[..i + 1][..i] == b[..i];
      StepOverBackslashes(b, start, level, i + 1, n - 1);
    }
  }

  lemma NotBackslashResets(b: seq<byte>, i: nat)
    requires i < |b| && b[i] != BACKSLASH
    ensures RunLength(b[..i + 1]) == 0
  {
    assert b[..i + 1][i] == b[i];
  }

  /** Whether `n` is a whole number of times `m`. */
  predicate Aligned(n: nat, m: nat)
    requires m > 0
  {
    Remainder(n, m) == 0
  }

  lemma {:induction false} AlignedRemainder(n: nat, m: nat, r: nat)
    requires r < m && Aligned(n, m)
    ensures Remainder(n + r, m) == r
  {
    if n >= m {
      AlignedRemainder(n - m, m, r);
    }
  }

  /** A run one short of a whole number of moduli is no closing run. */
  lemma ShortRunDoesNotClose(b: seq<byte>, start: nat, h: nat, i: nat, n: nat)
    requires h >= 1 && i < |b| && b[i] == QUOTE && Aligned(n, 2 * h) && RunLength(b[..i]) == n + 2 * h - 1
    ensures FindClose(b, QUOTE, start, h - 1, i) == FindClose(b, QUOTE, start, h - 1, i + 1)
    ensures RunLength(b[..i + 1]) == 0
  {
    AlignedRemainder(n, 2 * h, 2 * h - 1);
    NotBackslashResets(b, i);
  }

  /** A unit of a string's content, in its nested form. */
  predicate IsUnit(unit: seq<byte>) {
    || (|unit| == 1 && unit[0] != BACKSLASH && unit[0] != QUOTE)
    || (|unit| == 2 && unit[0] == BACKSLASH)
  }

  lemma ExpandUnit(h: nat, unit: seq<byte>)
    requires h >= 1 && IsUnit(unit)
    ensures |unit| == 1 ==> Expand(h, unit) == [unit[0]]
    ensures |unit| == 2 ==> Expand(h, unit) == Backslashes(h) + ExpandByte(h, unit[1])
  {
    if |unit| == 1 {
      assert Expand(h, unit) == [unit[0]] + Expand(h, []);
    } else {
      assert unit[1..] == [unit[1]];
      assert Expand(h, [unit[1]]) == ExpandByte(h, unit[1]) + Expand(h, []);
    }
  }

  /** Whether `x` stands at `i`. */
  predicate Has(b: seq<byte>, i: nat, x: seq<byte>)
    decreases |x|
  {
    if x == [] then i <= |b| else i < |b| && b[i] == x[0] && Has(b, i + 1, x[1..])
  }

  lemma {:induction false} HasSlice(b: seq<byte>, i: nat, x: seq<byte>)
    ensures Has(b, i, x) <==> i + |x| <= |b| && b[i..i + |x|] == x
    decreases |x|
  {
    if x != [] {
      HasSlice(b, i + 1, x[1..]);
      if i + |x| <= |b| {
        assert b[i..i + |x|] == [b[i]] + b[i + 1..i + |x|];
      }
    }
  }

  lemma {:induction false} HasSplit(b: seq<byte>, i: nat, x: seq<byte>, y: seq<byte>)
    ensures Has(b, i, x + y) <==> Has(b, i, x) && Has(b, i + |x|, y)
    decreases |x|
  {
    if x == [] {
      assert x + y == y;
      HasSlice(b, i, y);
    } else {
      assert (x + y)[1..] == x[1..] + y;
      HasSplit(b, i + 1, x[1..], y);
    }
  }

  lemma {:induction false} BackslashesAt(b: seq<byte>, i: nat, n: nat)
    requires Has(b, i, Backslashes(n))
    ensures i + n <= |b| && forall j :: i <= j < i + n ==> b[j] == BACKSLASH
    decreases n
  {
    if n > 0 {
      assert Backslashes(n)[1..] == Backslashes(n - 1);
      BackslashesAt(b, i + 1, n - 1);
    }
  }

  /** A unit is stepped over whole; the run it leaves behind is again a whole number of moduli. */
  lemma StepOverUnit(b: seq<byte>, start: nat, h: nat, i: nat, unit: seq<byte>)
    requires h >= 1 && i <= |b| && IsUnit(unit) && Has(b, i, Expand(h, unit))
    requires Aligned(RunLength(b[..i]), 2 * h)
    ensures var e := i + |Expand(h, unit)|;
            && e <= |b|
            && FindClose(b, QUOTE, start, h - 1, i) == FindClose(b, QUOTE, start, h - 1, e)
            && Aligned(RunLength(b[..e]), 2 * h)
  {
    hide FindClose, Has, RunLength, Expand, ExpandByte;
    ExpandUnit(h, unit);
    if |unit| == 1 {
      PlainByteAt(b, start, h, i, unit[0]);
      AlignedZero(2 * h);
    } else {
      HasSplit(b, i, Backslashes(h), ExpandByte(h, unit[1]));
      BackslashesAt(b, i, h);
      StepOverBackslashes(b, start, h - 1, i, h);
      StepOverEscaped(b, start, h, i + h, unit[1], RunLength(b[..i]));
    }
  }

  lemma AlignedZero(m: nat)
    requires m > 0
    ensures Aligned(0, m)
  {
  }

  /** The byte after an escaping backslash, once that backslash's own expansion is behind. */
  lemma StepOverEscaped(b: seq<byte>, start: nat, h: nat, i: nat, c: byte, n: nat)
    requires h >= 1 && Has(b, i, ExpandByte(h, c))
    requires Aligned(n, 2 * h) && RunLength(b[..i]) == n + h
    ensures var e := i + |ExpandByte(h, c)|;
            && e <= |b|
            && FindClose(b, QUOTE, start, h - 1, i) == FindClose(b, QUOTE, start, h - 1, e)
            && Aligned(RunLength(b[..e]), 2 * h)
  {
    hide FindClose, Has, RunLength;
    if c == BACKSLASH {
      BackslashesAt(b, i, h);
      StepOverBackslashes(b, start, h - 1, i, h);
    } else if c == QUOTE {
      QuoteAt(b, i, h);
      StepOverBackslashes(b, start, h - 1, i, h - 1);
      ShortRunDoesNotClose(b, start, h, i + (h - 1), n);
    } else {
      PlainByteAt(b, start, h, i, c);
    }
  }

  lemma PlainByteAt(b: seq<byte>, start: nat, h: nat, i: nat, c: byte)
    requires h >= 1 && c != BACKSLASH && c != QUOTE && Has(b, i, [c])
    ensures i < |b| && RunLength(b[..i + 1]) == 0
    ensures FindClose(b, QUOTE, start, h - 1, i) == FindClose(b, QUOTE, start, h - 1, i + 1)
  {
    NotBackslashResets(b, i);
  }

  lemma QuoteAt(b: seq<byte>, i: nat, h: nat)
    requires h >= 1 && Has(b, i, Backslashes(h - 1) + [QUOTE])
    ensures i + h <= |b| && b[i + h - 1] == QUOTE
    ensures forall j :: i <= j < i + (h - 1) ==> b[j] == BACKSLASH
  {
    HasSplit(b, i, Backslashes(h - 1), [QUOTE]);
    BackslashesAt(b, i, h - 1);
  }

  /** At the end of the content stands the closing quote. */
  lemma ClosesHere(b: seq<byte>, start: nat, h: nat, i: nat)
    requires h >= 1 && start <= i && Has(b, i, Backslashes(h - 1) + [QUOTE])
    requires Aligned(RunLength(b[..i]), 2 * h)
    ensures FindClose(b, QUOTE, start, h - 1, i) == Some(i + h - 1)
  {
    QuoteAt(b, i, h);
    StepOverBackslashes(b, start, h - 1, i, h - 1);
    AlignedRemainder(RunLength(b[..i]), 2 * h, h - 1);
  }

  /** From anywhere between units, the close found is the one that ends the content. */
  lemma {:induction false} ClosesAfterBody(b: seq<byte>, start: nat, h: nat, i: nat, body: seq<byte>)
    requires h >= 1 && IsBody(body) && start <= i <= |b|
    requires Has(b, i, Expand(h, body) + (Backslashes(h - 1) + [QUOTE]))
    requires Aligned(RunLength(b[..i]), 2 * h)
    ensures FindClose(b, QUOTE, start, h - 1, i) == Some(i + |Expand(h, body)| + h - 1)
    decreases |body|
  {
    hide FindClose, Has, RunLength, Aligned, Backslashes;
    var tail := Backslashes(h - 1) + [QUOTE];
    if body == [] {
      assert Expand(h, body) + tail == tail;
      ClosesHere(b, start, h, i);
    } else {
      var n := if body[0] == BACKSLASH then 2 else 1;
      var unit, more := body[..n], body[n..];
      assert body == unit + more;
      ExpandConcat(h, unit, more);
      var x, y := Expand(h, unit), Expand(h, more) + tail;
      Assoc(x, Expand(h, more), tail);
      HasSplit(b, i, x, y);
      StepOverUnit(b, start, h, i, unit);
      ClosesAfterBody(b, start, h, i + |x|, more);
    }
  }

  /** A literal `h - 1` escapes deep, spelled out. */
  lemma ExpandLiteral(h: nat, body: seq<byte>)
    requires h >= 1
    ensures Expand(h, Literal(body)) ==
            Backslashes(h - 1) + [QUOTE] + (Expand(h, body) + (Backslashes(h - 1) + [QUOTE]))
  {
    var q := [QUOTE];
    assert Expand(h, q) == ExpandByte(h, QUOTE) + Expand(h, []) == Backslashes(h - 1) + [QUOTE];
    ExpandConcat(h, q + body, q);
    ExpandConcat(h, q, body);
    Assoc(Expand(h, q), Expand(h, body), Expand(h, q));
  }

  lemma OpensHere(b: seq<byte>, at: nat, h: nat)
    requires h >= 1 && Has(b, at, Backslashes(h - 1) + [QUOTE])
    ensures OpensAt(b, at, QUOTE, h - 1) && b[at + h - 1] == QUOTE && !StartsNumber(b[at])
    ensures at + h <= |b| && RunLength(b[..at + h]) == 0
  {
    QuoteAt(b, at, h);
    NotBackslashResets(b, at + (h - 1));
  }

  /** A literal `h - 1` escapes deep, standing at `at`. */
  lemma LiteralIsRead(b: seq<byte>, at: nat, h: nat, body: seq<byte>)
    requires IsBody(body) && h >= 1 && Has(b, at, Expand(h, Literal(body)))
    ensures var start := at + h;
            var end := start + |Expand(h, body)|;
            && |Expand(h, Literal(body))| == |Expand(h, body)| + 2 * h
            && end + h <= |b|
            && ScalarAt(b, at, QUOTE, h - 1) == Some(Scalar(start, end, end + h, true))
            && b[start..end] == Expand(h, body)
  {
    hide Expand, Has, FindClose, OpensAt, IsBody, Literal, RunLength;
    var open, content := Backslashes(h - 1) + [QUOTE], Expand(h, body);
    ExpandLiteral(h, body);
    HasSplit(b, at, open, content + open);
    OpensHere(b, at, h);
    HasSplit(b, at + h, content, open);
    ClosesAfterBody(b, at + h, h, at + h, body);
    HasSlice(b, at + h, content);
  }

  /**
   Whatever quotes and backslashes a string holds, and however deep its document is nested, reading it
   back gives exactly its content and the byte after its real closing quote.
   */
  lemma NestedLiteralIsRead(b: seq<byte>, at: nat, n: nat, body: seq<byte>)
    requires IsBody(body)
    requires var literal := Nest(n, Literal(body)); at + |literal| <= |b| && b[at..at + |literal|] == literal
    ensures var start := at + Level(n) + 1;
            var end := start + |Nest(n, body)|;
            var next := at + |Nest(n, Literal(body))|;
            && end <= next <= |b|
            && ScalarAt(b, at, QUOTE, Level(n)) == Some(Scalar(start, end, next, true))
            && b[start..end] == Nest(n, body)
  {
    hide ScalarAt, Nest, Expand, Literal, IsBody, Has;
    NestIsExpand(n, Literal(body));
    NestIsExpand(n, body);
    HasSlice(b, at, Nest(n, Literal(body)));
    LiteralIsRead(b, at, Pow2(n), body);
  }

  // ---- Any string at all ----

  /** What reading the content of a string literal makes of it: each escape gives the byte after the backslash. */
  function Unescape(body: seq<byte>): seq<byte> {
    if body == [] then []
    else if body[0] == BACKSLASH && |body| >= 2 then [body[1]] + Unescape(body[2..])
    else [body[0]] + Unescape(body[1..])
  }

  function Unnest(n: nat, s: seq<byte>): seq<byte> {
    if n == 0 then s else Unnest(n - 1, Unescape(s))
  }

  /** Escaping makes a literal's content of any string, and reading it gives the string back. */
  lemma {:induction false} EscapedIsBody(s: seq<byte>)
    ensures IsBody(Escape(s)) && Unescape(Escape(s)) == s
  {
    if s != [] {
      EscapedIsBody(s[1..]);
      var unit, rest := EscapeByte(s[0]), Escape(s[1..]);
      assert (unit + rest)[|unit|..] == rest;
    }
  }

  lemma {:induction false} UnnestInverts(n: nat, s: seq<byte>)
    ensures Unnest(n, Nest(n, s)) == s
  {
    if n > 0 {
      EscapedIsBody(Nest(n - 1, s));
      UnnestInverts(n - 1, s);
    }
  }

  lemma {:induction false} NestInside(n: nat, s: seq<byte>)
    ensures Nest(n, Escape(s)) == Nest(n + 1, s)
  {
    if n > 0 {
      NestInside(n - 1, s);
    }
  }

  /**
   For every string and every depth: the scalar read where its literal stands in a document nested `n` deep is
   exactly the string escaped once more than the document is, and undoing those escapes gives the string.
   */
  lemma NestedStringIsRead(b: seq<byte>, at: nat, n: nat, s: seq<byte>)
    requires var literal := Nest(n, Literal(Escape(s))); at + |literal| <= |b| && b[at..at + |literal|] == literal
    ensures var r := ScalarAt(b, at, QUOTE, Level(n));
            && r.Some? && r.value.isString && r.value.next == at + |Nest(n, Literal(Escape(s)))|
            && at < r.value.start <= r.value.end < r.value.next <= |b|
            && Unnest(n + 1, b[r.value.start..r.value.end]) == s
  {
    hide ScalarAt, Nest, Expand, Literal, IsBody, Unnest, Unescape, Escape;
    EscapedIsBody(s);
    NestedLiteralIsRead(b, at, n, Escape(s));
    NestInside(n, s);
    UnnestInverts(n + 1, s);
    NestedLiteralIsLonger(n, Escape(s));
  }

  lemma NestedLiteralIsLonger(n: nat, body: seq<byte>)
    ensures |Nest(n, Literal(body))| >= |Nest(n, body)| + Level(n) + 2
  {
    hide Nest, Expand, Literal;
    NestIsExpand(n, Literal(body));
    NestIsExpand(n, body);
    ExpandLiteral(Pow2(n), body);
  }
}
