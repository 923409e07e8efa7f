/**
 An object or list under a secret name. `mask_container` walks its bytes once and replaces every scalar
 leaf; this module says what that does to the document those bytes are, at any escape depth.
 */
module SecretContainer {
  import opened Bytes
  import opened Options
  import opened EscapedJson
  import opened Splices

  const LBRACE: byte := 123
  const RBRACE: byte := 125
  const LBRACKET: byte := 91
  const RBRACKET: byte := 93
  const COLON: byte := 58
  const COMMA: byte := 44

  const PLACEHOLDER: seq<byte> := [91, 83, 69, 67, 82, 69, 84, 93]

  predicate IsSpace(c: byte) {
    c == 32 || c == 9 || c == 10 || c == 12 || c == 13
  }

  function SkipSpace(b: seq<byte>, i: nat): (k: nat)
    requires i <= |b|
    ensures i <= k <= |b|
    decreases |b| - i
  {
    if i < |b| && IsSpace(b[i]) then SkipSpace(b, i + 1) else i
  }

  /** What replaces a value: a number becomes a string at its document's own escape depth. */
  function Replacement(isString: bool, quote: byte, level: nat): seq<byte> {
    if isString then PLACEHOLDER
    else Backslashes(level) + [quote] + PLACEHOLDER + Backslashes(level) + [quote]
  }

  function PushValue(b: seq<byte>, s: Scalar, quote: byte, level: nat): seq<Edit>
    requires s.start <= s.end <= |b|
  {
    var value := b[s.start..s.end];
    if value == [] || value == PLACEHOLDER then []
    else [Edit(s.start, s.end, Replacement(s.isString, quote, level))]
  }

  predicate IsKey(b: seq<byte>, s: Scalar)
    requires s.next <= |b|
  {
    s.isString && (var k := SkipSpace(b, s.next); k < |b| && b[k] == COLON)
  }

  predicate NumberMayFollow(prev: byte) {
    prev == COLON || prev == COMMA || prev == LBRACKET
  }

  /** The walk from `i`, `depth` containers deep, after the significant byte `prev`: its hits, and where it stops. */
  function Walk(b: seq<byte>, i: nat, depth: nat, prev: byte, quote: byte, level: nat): (seq<Edit>, nat)
    requires i <= |b|
    decreases |b| - i
  {
    if i == |b| then ([], |b|)
    else
      var c := b[i];
      if c == LBRACE || c == LBRACKET then Walk(b, i + 1, depth + 1, c, quote, level)
      else if c == RBRACE || c == RBRACKET then
        var left := if depth == 0 then 0 else depth - 1;
        if left == 0 then ([], i + 1) else Walk(b, i + 1, left, c, quote, level)
      else if c == COLON || c == COMMA then Walk(b, i + 1, depth, c, quote, level)
      else if IsSpace(c) || (StartsNumber(c) && !NumberMayFollow(prev)) then Walk(b, i + 1, depth, prev, quote, level)
      else
        match ScalarAt(b, i, quote, level)
        case None => Walk(b, i + 1, depth, c, quote, level)
        case Some(s) =>
          var (more, end) := Walk(b, s.next, depth, QUOTE, quote, level);
          ((if IsKey(b, s) then [] else PushValue(b, s, quote, level)) + more, end)
  }

  /** Replaces every scalar leaf of the container opening at `open`; returns the hits and the byte after it. */
  method MaskContainer(b: seq<byte>, open: nat, quote: byte, level: nat) returns (hits: seq<Edit>, end: nat)
    requires open <= |b|
    ensures (hits, end) == Walk(b, open, 0, LBRACKET, quote, level)
  {
    hits := [];
    var depth: nat := 0;
    var prev, i := LBRACKET, open;
    assert [] + Walk(b, open, 0, LBRACKET, quote, level).0 == Walk(b, open, 0, LBRACKET, quote, level).0;
    while i < |b|
      invariant open <= i <= |b|
      invariant Walk(b, open, 0, LBRACKET, quote, level) ==
                var (more, end) := Walk(b, i, depth, prev, quote, level); (hits + more, end)
    {
      var c := b[i];
      if c == LBRACE || c == LBRACKET {
        depth, prev, i := depth + 1, c, i + 1;
      } else if c == RBRACE || c == RBRACKET {
        depth := if depth == 0 then 0 else depth - 1;
        i := i + 1;
        assert hits + [] == hits;
        if depth == 0 {
          return hits, i;
        }
        prev := c;
      } else if c == COLON || c == COMMA {
        prev, i := c, i + 1;
      } else if IsSpace(c) {
        i := i + 1;
      } else if StartsNumber(c) && !NumberMayFollow(prev) {
        i := i + 1;
      } else {
        var scalar := ReadScalar(b, i, quote, level);
        match scalar {
          case None =>
            prev, i := c, i + 1;
          case Some(s) =>
            var k := s.next;
            while k < |b| && IsSpace(b[k])
              invariant s.next <= k <= |b|
              invariant SkipSpace(b, k) == SkipSpace(b, s.next)
            {
              k := k + 1;
            }
            var isKey := s.isString && k < |b| && b[k] == COLON;
            ghost var more := Walk(b, s.next, depth, QUOTE, quote, level).0;
            var pushed := [];
            if !isKey {
              var value := b[s.start..s.end];
              if value != [] && value != PLACEHOLDER {
                pushed := [Edit(s.start, s.end, Replacement(s.isString, quote, level))];
              }
            }
            Assoc(hits, pushed, more);
            hits := hits + pushed;
            prev, i := QUOTE, s.next;
        }
      }
    }
    assert hits + [] == hits;
    return hits, |b|;
  }
}
