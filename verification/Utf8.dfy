/** Well-formed UTF-8 (section 4 of RFC 3629), and the two things the exporters do with it. */
module Utf8 {
  import opened Bytes

  predicate IsContinuation(c: byte) {
    128 <= c < 192
  }

  /** Length of the character at the front of `s`, or 0 when no well-formed character starts there. */
  function CharLen(s: seq<byte>): (n: nat)
    ensures n <= 4 && n <= |s|
    ensures forall i :: 1 <= i < n ==> IsContinuation(s[i])
    ensures n > 0 ==> !IsContinuation(s[0])
    ensures s != [] && s[0] < 128 ==> n == 1
    ensures n > 1 ==> forall i :: 0 <= i < n ==> s[i] >= 128
  {
    if s == [] then 0
    else if s[0] < 128 then 1
    else if |s| >= 2 && 194 <= s[0] < 224 && IsContinuation(s[1]) then 2
    else if |s| >= 3 && 224 <= s[0] < 240 && IsContinuation(s[1]) && IsContinuation(s[2])
            && (s[0] == 224 ==> s[1] >= 160) && (s[0] == 237 ==> s[1] < 160) then 3
    else if |s| >= 4 && 240 <= s[0] < 245 && IsContinuation(s[1]) && IsContinuation(s[2]) && IsContinuation(s[3])
            && (s[0] == 240 ==> s[1] >= 144) && (s[0] == 244 ==> s[1] < 144) then 4
    else 0
  }

  predicate Valid(s: seq<byte>)
    decreases |s|
  {
    s == [] || (CharLen(s) > 0 && Valid(s[CharLen(s)..]))
  }

  lemma {:induction false} AsciiIsValid(s: seq<byte>)
    requires forall c :: c in s ==> c < 128
    ensures Valid(s)
  {
    if s != [] {
      assert s[0] in s && forall c :: c in s[1..] ==> c in s;
      AsciiIsValid(s[1..]);
    }
  }

  /** A well-formed character is recognised by its own bytes alone. */
  lemma CharLenLocal(s: seq<byte>, t: seq<byte>)
    requires CharLen(s) > 0 && |t| >= CharLen(s) && t[..CharLen(s)] == s[..CharLen(s)]
    ensures CharLen(t) == CharLen(s)
  {
    var n := CharLen(s);
    assert forall i :: 0 <= i < n ==> t[i] == t[..n][i] == s[..n][i] == s[i];
  }

  /** Cutting between characters keeps both halves well-formed. */
  lemma {:induction false} CutBetweenCharacters(s: seq<byte>, i: nat)
    requires Valid(s) && i <= |s| && (i < |s| ==> !IsContinuation(s[i]))
    ensures Valid(s[..i])
    decreases |s|
  {
    if i > 0 {
      var n := CharLen(s);
      assert i >= n;
      CutBetweenCharacters(s[n..], i - n);
      assert s[..i][..n] == s[..n];
      CharLenLocal(s, s[..i]);
      assert s[..i][n..] == s[n..][..i - n];
    }
  }

  // ---- The largest cut at or below a byte index ----

  function FloorBoundary(s: seq<byte>, i: nat): (r: nat)
    ensures r <= |s| && r <= i
    decreases i
  {
    if i >= |s| then |s|
    else if i > 0 && IsContinuation(s[i]) then FloorBoundary(s, i - 1)
    else i
  }

  method FloorCharBoundary(s: seq<byte>, i: nat) returns (r: nat)
    ensures r == FloorBoundary(s, i)
  {
    if i >= |s| {
      return |s|;
    }
    r := i;
    while r > 0 && IsContinuation(s[r])
      invariant r < |s|
      invariant FloorBoundary(s, r) == FloorBoundary(s, i)
    {
      r := r - 1;
    }
  }

  lemma NothingIsValid()
    ensures Valid([])
  {
  }

  /** The cut is the highest index, not above `i`, where the text may be cut; and it is a legal one. */
  lemma {:induction false} FloorBoundaryIsHighest(s: seq<byte>, i: nat)
    requires Valid(s)
    ensures var r := FloorBoundary(s, i);
            && Valid(s[..r])
            && (forall k :: r < k <= i && k < |s| ==> IsContinuation(s[k]))
    decreases i
  {
    hide CharLen, Valid;
    if i >= |s| {
      assert s[..|s|] == s;
    } else if i > 0 && IsContinuation(s[i]) {
      FloorBoundaryIsHighest(s, i - 1);
    } else {
      if s != [] && i == 0 {
        assert s[..0] == [];
        NothingIsValid();
      }
      if i > 0 {
        CutBetweenCharacters(s, i);
      }
    }
  }

  /** Where a well-formed text may be cut, the next byte continues no character. */
  lemma {:induction false} CutsAreBetween(s: seq<byte>, k: nat)
    requires Valid(s) && k < |s| && Valid(s[..k])
    ensures !IsContinuation(s[k])
    decreases |s|
  {
    if k > 0 {
      var p := s[..k];
      var n := CharLen(p);
      assert s[..n] == p[..n];
      CharLenLocal(p, s);
      assert s[n..][..k - n] == p[n..];
      CutsAreBetween(s[n..], k - n);
      assert s[n..][k - n] == s[k];
    }
  }

  // ---- A same-length text for bytes that may not be one ----

  const QUESTION_MARK: byte := 63

  function StandIn(s: seq<byte>): seq<byte>
    decreases |s|
  {
    if s == [] then []
    else if CharLen(s) > 0 then s[..CharLen(s)] + StandIn(s[CharLen(s)..])
    else [QUESTION_MARK] + StandIn(s[1..])
  }

  /** `r` may stand for `c`: the byte itself, or a `?` for a byte outside ASCII. */
  predicate StandsFor(r: byte, c: byte) {
    r == c || (c >= 128 && r == QUESTION_MARK)
  }

  lemma StandsForConcat(head: seq<byte>, tail: seq<byte>, s: seq<byte>, t: seq<byte>)
    requires |head| == |s| && forall i :: 0 <= i < |s| ==> StandsFor(head[i], s[i])
    requires |tail| == |t| && forall i :: 0 <= i < |t| ==> StandsFor(tail[i], t[i])
    ensures forall i :: 0 <= i < |s + t| ==> StandsFor((head + tail)[i], (s + t)[i])
  {
  }

  /** Offsets hold: the stand-in has the same length, and every ASCII byte where it was. */
  lemma {:induction false} StandInKeepsOffsets(s: seq<byte>)
    ensures |StandIn(s)| == |s|
    ensures forall i :: 0 <= i < |s| ==> StandsFor(StandIn(s)[i], s[i])
    decreases |s|
  {
    hide CharLen;
    if s != [] {
      var n := if CharLen(s) > 0 then CharLen(s) else 1;
      StandInKeepsOffsets(s[n..]);
      assert s == s[..n] + s[n..];
      StandsForConcat(if CharLen(s) > 0 then s[..n] else [QUESTION_MARK], StandIn(s[n..]), s[..n], s[n..]);
    }
  }

  lemma ValidCons(head: seq<byte>, tail: seq<byte>)
    requires CharLen(head) == |head| > 0 && Valid(tail)
    ensures Valid(head + tail)
  {
    CharLenLocal(head, head + tail);
    assert (head + tail)[|head|..] == tail;
  }

  lemma {:induction false} StandInIsValid(s: seq<byte>)
    ensures Valid(StandIn(s))
    decreases |s|
  {
    if s != [] {
      var n := CharLen(s);
      if n > 0 {
        StandInIsValid(s[n..]);
        CharLenLocal(s, s[..n]);
        ValidCons(s[..n], StandIn(s[n..]));
      } else {
        StandInIsValid(s[1..]);
        ValidCons([QUESTION_MARK], StandIn(s[1..]));
      }
    }
  }

  /** Text that is well-formed stands in for itself. */
  lemma {:induction false} ValidStandsIn(s: seq<byte>)
    requires Valid(s)
    ensures StandIn(s) == s
    decreases |s|
  {
    if s != [] {
      ValidStandsIn(s[CharLen(s)..]);
    }
  }

  // ---- Characters as scalar values ----

  /** A Unicode scalar value: no surrogate is one. */
  type scalar = c: nat | c < 0xD800 || 0xE000 <= c < 0x11_0000

  function EncodeScalar(c: scalar): (r: seq<byte>)
    ensures 0 < |r| <= 4
  {
    if c < 0x80 then [c]
    else if c < 0x800 then [192 + c / 64, 128 + c % 64]
    else if c < 0x1_0000 then [224 + c / 4096, 128 + c / 64 % 64, 128 + c % 64]
    else [240 + c / 262144, 128 + c / 4096 % 64, 128 + c / 64 % 64, 128 + c % 64]
  }

  function EncodeText(cs: seq<scalar>): seq<byte> {
    if cs == [] then [] else EncodeScalar(cs[0]) + EncodeText(cs[1..])
  }

  lemma ScalarIsChar(c: scalar)
    ensures CharLen(EncodeScalar(c)) == |EncodeScalar(c)|
  {
  }

  lemma TwoBytes(a: nat, b: nat)
    requires 2 <= a < 32 && b < 64
    ensures EncodeScalar(64 * a + b) == [192 + a, 128 + b]
  {
  }

  lemma ThreeBytes(a: nat, b: nat, c: nat)
    requires a < 16 && b < 64 && c < 64 && (a == 0 ==> b >= 32) && (a == 13 ==> b < 32)
    ensures EncodeScalar(64 * (64 * a + b) + c) == [224 + a, 128 + b, 128 + c]
  {
    var v := 64 * (64 * a + b) + c;
    assert v / 64 == 64 * a + b && v / 4096 == a;
  }

  lemma FourBytes(a: nat, b: nat, c: nat, d: nat)
    requires a < 5 && b < 64 && c < 64 && d < 64 && (a == 0 ==> b >= 16) && (a == 4 ==> b < 16)
    ensures EncodeScalar(64 * (64 * (64 * a + b) + c) + d) == [240 + a, 128 + b, 128 + c, 128 + d]
  {
    var v := 64 * (64 * (64 * a + b) + c) + d;
    assert v / 64 == 64 * (64 * a + b) + c && v / 4096 == 64 * a + b && v / 262144 == a;
  }

  /** Every character is a scalar value encoded. */
  lemma CharIsScalar(s: seq<byte>) returns (c: scalar)
    requires CharLen(s) == |s| > 0
    ensures EncodeScalar(c) == s
  {
    var x: nat := s[0];
    if |s| == 1 {
      return x;
    }
    hide EncodeScalar;
    var y: nat := s[1] as nat - 128;
    if |s| == 2 {
      TwoBytes(x - 192, y);
      return 64 * (x - 192) + y;
    }
    var z: nat := s[2] as nat - 128;
    if |s| == 3 {
      ThreeBytes(x - 224, y, z);
      return 64 * (64 * (x - 224) + y) + z;
    }
    var w: nat := s[3] as nat - 128;
    FourBytes(x - 240, y, z, w);
    return 64 * (64 * (64 * (x - 240) + y) + z) + w;
  }

  /** Where a character starts, a scalar value does. */
  lemma CharStarts(s: seq<byte>) returns (c: scalar)
    requires CharLen(s) > 0
    ensures EncodeScalar(c) <= s
  {
    hide CharLen, EncodeScalar;
    CharLenLocal(s, s[..CharLen(s)]);
    c := CharIsScalar(s[..CharLen(s)]);
  }

  /** The well-formed texts are the encodings of scalar values, one after another. */
  lemma {:induction false} EncodedIsValid(cs: seq<scalar>)
    ensures Valid(EncodeText(cs))
  {
    if cs != [] {
      EncodedIsValid(cs[1..]);
      ScalarIsChar(cs[0]);
      ValidCons(EncodeScalar(cs[0]), EncodeText(cs[1..]));
    }
  }

  lemma {:induction false} ValidIsEncoded(s: seq<byte>) returns (cs: seq<scalar>)
    requires Valid(s)
    ensures EncodeText(cs) == s
    decreases |s|
  {
    hide CharLen, EncodeScalar;
    if s == [] {
      cs := [];
    } else {
      var n := CharLen(s);
      CharLenLocal(s, s[..n]);
      var c := CharIsScalar(s[..n]);
      var rest := ValidIsEncoded(s[n..]);
      cs := [c] + rest;
      assert cs[1..] == rest && s == s[..n] + s[n..];
    }
  }

  lemma CharStandsIn(c: scalar, rest: seq<byte>)
    ensures StandIn(EncodeScalar(c) + rest) == EncodeScalar(c) + StandIn(rest)
  {
    hide CharLen, EncodeScalar;
    var head := EncodeScalar(c);
    ScalarIsChar(c);
    assert (head + rest)[..|head|] == head && (head + rest)[|head|..] == rest;
    CharLenLocal(head, head + rest);
  }

  /** Text at the front stands in for itself, whatever follows it. */
  lemma {:induction false} TextStandsIn(cs: seq<scalar>, rest: seq<byte>)
    ensures StandIn(EncodeText(cs) + rest) == EncodeText(cs) + StandIn(rest)
  {
    hide CharLen, EncodeScalar;
    if cs == [] {
      assert EncodeText(cs) + rest == rest;
    } else {
      var head, tail := EncodeScalar(cs[0]), EncodeText(cs[1..]);
      TextStandsIn(cs[1..], rest);
      Assoc(head, tail, rest);
      Assoc(head, tail, StandIn(rest));
      CharStandsIn(cs[0], tail + rest);
    }
  }

  /** A byte that no character starts with becomes a question mark, and the next byte may start one. */
  lemma StrayByteStandsIn(s: seq<byte>)
    requires s != [] && forall c: scalar :: !(EncodeScalar(c) <= s)
    ensures StandIn(s) == [QUESTION_MARK] + StandIn(s[1..])
  {
    hide CharLen, EncodeScalar;
    if CharLen(s) > 0 {
      var c := CharStarts(s);
      assert false;
    }
  }
}
