/** Percent-encoded values: decoding with a map back to the encoded bytes, and masking through it. */
module Percent {
  import opened Bytes
  import opened Splices
  import opened SecretContainer

  const PERCENT: byte := 37
  const PLUS: byte := 43

  predicate IsHex(c: byte) {
    48 <= c <= 57 || 97 <= c <= 102 || 65 <= c <= 70
  }

  function HexValue(c: byte): (v: nat)
    requires IsHex(c)
    ensures v < 16
  {
    if c <= 57 then c - 48 else if c >= 97 then c - 87 else c - 55
  }

  /** Bytes of the unit `e` begins with: an escape, or one byte that stands for itself or for a space. */
  function UnitLen(e: seq<byte>): (n: nat)
    requires e != []
    ensures 1 <= n <= |e|
  {
    if e[0] == PERCENT && |e| >= 3 && IsHex(e[1]) && IsHex(e[2]) then 3 else 1
  }

  function UnitByte(e: seq<byte>): byte
    requires e != []
  {
    if UnitLen(e) == 3 then 16 * HexValue(e[1]) + HexValue(e[2])
    else if e[0] == PLUS then 32
    else e[0]
  }

  function Decode(e: seq<byte>): (d: seq<byte>)
    ensures |d| <= |e|
    decreases |e|
  {
    if e == [] then [] else [UnitByte(e)] + Decode(e[UnitLen(e)..])
  }

  /** Where the `k`-th unit starts. */
  function Offset(e: seq<byte>, k: nat): (o: nat)
    requires k <= |Decode(e)|
    ensures k <= o <= |e|
    decreases |e|
  {
    if k == 0 then 0 else UnitLen(e) + Offset(e[UnitLen(e)..], k - 1)
  }

  lemma DecodeStep(e: seq<byte>)
    requires e != []
    ensures Decode(e) == [UnitByte(e)] + Decode(e[UnitLen(e)..])
  {
  }

  lemma OffsetStep(e: seq<byte>, k: nat)
    requires 0 < k <= |Decode(e)|
    ensures e != [] && k - 1 <= |Decode(e[UnitLen(e)..])|
    ensures Offset(e, k) == UnitLen(e) + Offset(e[UnitLen(e)..], k - 1)
  {
  }

  lemma {:induction false} OffsetEnds(e: seq<byte>)
    ensures Offset(e, |Decode(e)|) == |e|
    decreases |e|
  {
    if e != [] {
      OffsetEnds(e[UnitLen(e)..]);
    }
  }

  /** The map is strictly increasing, so distinct decoded ranges come from distinct encoded ones. */
  lemma {:induction false} OffsetIncreases(e: seq<byte>, i: nat, j: nat)
    requires i < j <= |Decode(e)|
    ensures Offset(e, i) < Offset(e, j)
    decreases |e|
  {
    hide Decode, UnitLen, UnitByte;
    OffsetStep(e, j);
    if i > 0 {
      OffsetStep(e, i);
      OffsetIncreases(e[UnitLen(e)..], i - 1, j - 1);
    }
  }

  lemma FirstUnit(e: seq<byte>, m: nat)
    requires e != [] && UnitLen(e) <= m <= |e|
    ensures UnitLen(e[..m]) == UnitLen(e) && UnitByte(e[..m]) == UnitByte(e)
  {
  }

  /** Cutting between units cuts the decoded text at the same place. */
  lemma {:induction false} CutBetweenUnits(e: seq<byte>, k: nat)
    requires k <= |Decode(e)|
    ensures Decode(e[..Offset(e, k)]) == Decode(e)[..k]
    ensures Decode(e[Offset(e, k)..]) == Decode(e)[k..]
    decreases |e|
  {
    hide Decode, Offset, UnitLen, UnitByte;
    var o := Offset(e, k);
    if k > 0 {
      OffsetStep(e, k);
      var n := UnitLen(e);
      var tail := e[n..];
      CutBetweenUnits(tail, k - 1);
      DecodeStep(e);
      FirstUnit(e, o);
      assert o - n == Offset(tail, k - 1);
      SliceOfTail(e, n, o);
      DecodeStep(e[..o]);
    } else {
      CutAtFront(e);
    }
  }

  lemma SliceOfTail(e: seq<byte>, n: nat, o: nat)
    requires n <= o <= |e|
    ensures e[..o][n..] == e[n..][..o - n] && e[n..][o - n..] == e[o..]
  {
  }

  lemma CutAtFront(e: seq<byte>)
    ensures Offset(e, 0) == 0
    ensures Decode(e[..0]) == Decode(e)[..0] && Decode(e[0..]) == Decode(e)[0..]
  {
    assert e[..0] == [] && e[0..] == e;
  }

  lemma {:induction false} OffsetAfter(e: seq<byte>, i: nat, j: nat)
    requires i <= j <= |Decode(e)|
    ensures j - i <= |Decode(e[Offset(e, i)..])|
    ensures Offset(e[Offset(e, i)..], j - i) == Offset(e, j) - Offset(e, i)
    decreases |e|
  {
    hide Decode, Offset, UnitLen, UnitByte;
    CutBetweenUnits(e, i);
    if i > 0 {
      OffsetStep(e, i);
      OffsetStep(e, j);
      var n := UnitLen(e);
      OffsetAfter(e[n..], i - 1, j - 1);
      SliceOfTail(e, n, Offset(e, i));
    } else {
      CutAtFront(e);
      assert e[0..] == e;
    }
  }

  /** A decoded range maps back to whole units, and they decode to exactly that range. */
  lemma RangeMapsBack(e: seq<byte>, i: nat, j: nat)
    requires i <= j <= |Decode(e)|
    ensures Offset(e, i) <= Offset(e, j)
    ensures Decode(e[Offset(e, i)..Offset(e, j)]) == Decode(e)[i..j]
  {
    hide Decode, Offset, UnitLen, UnitByte;
    var a, b := Offset(e, i), Offset(e, j);
    CutBetweenUnits(e, i);
    OffsetAfter(e, i, j);
    CutBetweenUnits(e[a..], j - i);
    assert e[a..][..b - a] == e[a..b];
    assert Decode(e)[i..][..j - i] == Decode(e)[i..j];
  }

  method DecodeMapped(enc: seq<byte>) returns (dec: seq<byte>, offsets: seq<nat>)
    ensures dec == Decode(enc)
    ensures |offsets| == |dec| + 1 && forall k :: 0 <= k <= |dec| ==> offsets[k] == Offset(enc, k)
  {
    hide Decode, Offset, IsHex, HexValue;
    dec, offsets := [], [];
    var j: nat := 0;
    CutAtFront(enc);
    assert [] + Decode(enc) == Decode(enc);
    assert enc[0..] == enc;
    while j < |enc|
      invariant j <= |enc| && |offsets| == |dec|
      invariant Decode(enc) == dec + Decode(enc[j..])
      invariant Offset(enc, |dec|) == j
      invariant forall k :: 0 <= k < |dec| ==> offsets[k] == Offset(enc, k)
    {
      OneMoreUnit(enc, dec, j);
      offsets := offsets + [j];
      if enc[j] == PERCENT && j + 2 < |enc| && IsHex(enc[j + 1]) && IsHex(enc[j + 2]) {
        dec := dec + [16 * HexValue(enc[j + 1]) + HexValue(enc[j + 2])];
        j := j + 3;
      } else if enc[j] == PLUS {
        dec := dec + [32];
        j := j + 1;
      } else {
        dec := dec + [enc[j]];
        j := j + 1;
      }
    }
    NothingDecoded(enc[j..]);
    assert dec + [] == dec;
    offsets := offsets + [|enc|];
  }

  lemma NothingDecoded(e: seq<byte>)
    requires e == []
    ensures Decode(e) == []
  {
  }

  lemma OneMoreUnit(enc: seq<byte>, dec: seq<byte>, j: nat)
    requires j < |enc| && Decode(enc) == dec + Decode(enc[j..]) && Offset(enc, |dec|) == j
    ensures var n := UnitLen(enc[j..]);
      && Decode(enc) == dec + [UnitByte(enc[j..])] + Decode(enc[j + n..])
      && |dec| + 1 <= |Decode(enc)| && Offset(enc, |dec| + 1) == j + n
  {
    hide Decode, Offset, UnitLen, UnitByte;
    var rest := enc[j..];
    var n := UnitLen(rest);
    DecodeStep(rest);
    assert rest[n..] == enc[j + n..];
    Assoc(dec, [UnitByte(rest)], Decode(enc[j + n..]));
    OffsetAfter(enc, |dec|, |dec| + 1);
    OffsetStep(rest, 1);
    CutAtFront(rest[n..]);
  }

  // ----- Masking the encoded text masks the decoded one -----

  lemma {:induction false} DecodeConcat(a: seq<byte>, b: seq<byte>)
    requires b != [] ==> !IsHex(b[0])
    ensures Decode(a + b) == Decode(a) + Decode(b)
    decreases |a|
  {
    hide UnitLen, UnitByte, IsHex;
    if a == [] {
      assert a + b == b;
    } else {
      var n := UnitLen(a);
      UnitBefore(a, b);
      DecodeStep(a);
      DecodeStep(a + b);
      assert (a + b)[n..] == a[n..] + b;
      DecodeConcat(a[n..], b);
      Assoc([UnitByte(a)], Decode(a[n..]), Decode(b));
    }
  }

  /** A byte that is no hexadecimal digit completes no escape begun before it. */
  lemma UnitBefore(a: seq<byte>, b: seq<byte>)
    requires a != [] && (b != [] ==> !IsHex(b[0]))
    ensures UnitLen(a + b) == UnitLen(a) && UnitByte(a + b) == UnitByte(a)
  {
    var ab := a + b;
    assert ab[0] == a[0];
    assert |a| >= 2 ==> ab[1] == a[1];
    assert |a| >= 3 ==> ab[2] == a[2];
    assert |a| == 1 && b != [] ==> ab[1] == b[0];
    assert |a| == 2 && b != [] ==> ab[2] == b[0];
  }

  predicate Plain(p: seq<byte>) {
    PERCENT !in p && PLUS !in p
  }

  lemma {:induction false} PlainDecodes(p: seq<byte>, b: seq<byte>)
    requires Plain(p)
    ensures Decode(p + b) == p + Decode(b)
  {
    if p == [] {
      assert p + b == b;
    } else {
      assert p[0] in p && (p + b)[1..] == p[1..] + b;
      PlainDecodes(p[1..], b);
      Assoc([p[0]], p[1..], Decode(b));
      assert [p[0]] + p[1..] == p;
    }
  }

  /** The hits on a decoded text, carried back to the encoded bytes they came from. */
  function MapBack(e: seq<byte>, hits: seq<Edit>): seq<Edit>
    requires forall h :: h in hits ==> h.start <= h.end <= |Decode(e)|
  {
    if hits == [] then []
    else [Edit(Offset(e, hits[0].start), Offset(e, hits[0].end), PLACEHOLDER)] + MapBack(e, hits[1..])
  }

  /** The same hits with the placeholder the carried ones write. */
  function Placed(hits: seq<Edit>): seq<Edit> {
    if hits == [] then [] else [hits[0].(replacement := PLACEHOLDER)] + Placed(hits[1..])
  }

  lemma {:induction false} InOrderIsRanged(hits: seq<Edit>, from: nat, to: nat)
    requires InOrder(hits, from, to)
    ensures forall h :: h in hits ==> h.start <= h.end <= to
    ensures InOrder(Placed(hits), from, to)
    decreases |hits|
  {
    if hits != [] {
      InOrderIsRanged(hits[1..], hits[0].end, to);
      InOrderBounds(hits[1..], hits[0].end, to);
    }
  }

  lemma OffsetOrdered(e: seq<byte>, i: nat, j: nat)
    requires i <= j <= |Decode(e)|
    ensures Offset(e, i) <= Offset(e, j)
  {
    if i < j {
      OffsetIncreases(e, i, j);
    }
  }

  lemma {:induction false} MapBackInOrder(e: seq<byte>, hits: seq<Edit>, from: nat, to: nat)
    requires to <= |Decode(e)| && InOrder(hits, from, to)
    requires forall h :: h in hits ==> h.start <= h.end <= |Decode(e)|
    ensures from <= to && InOrder(MapBack(e, hits), Offset(e, from), Offset(e, to))
    decreases |hits|
  {
    InOrderBounds(hits, from, to);
    if hits == [] {
      OffsetOrdered(e, from, to);
    } else {
      InOrderBounds(hits[1..], hits[0].end, to);
      MapBackInOrder(e, hits[1..], hits[0].end, to);
      OffsetOrdered(e, from, hits[0].start);
      OffsetOrdered(e, hits[0].start, hits[0].end);
    }
  }

  /** Masking the encoded bytes and then decoding gives what decoding and then masking gives. */
  lemma {:induction false} DecodingMaskedIsMaskingDecoded(e: seq<byte>, hits: seq<Edit>, from: nat, to: nat)
    requires to <= |Decode(e)| && InOrder(hits, from, to)
    requires forall h :: h in hits ==> h.start <= h.end <= |Decode(e)|
    ensures from <= to && InOrder(MapBack(e, hits), Offset(e, from), Offset(e, to)) && InOrder(Placed(hits), from, to)
    ensures Decode(Splice(e, MapBack(e, hits), Offset(e, from), Offset(e, to)))
      == Splice(Decode(e), Placed(hits), from, to)
    decreases |hits|
  {
    hide Decode, Offset;
    MapBackInOrder(e, hits, from, to);
    InOrderIsRanged(hits, from, to);
    if hits == [] {
      RangeMapsBack(e, from, to);
    } else {
      var h := hits[0];
      InOrderBounds(hits[1..], h.end, to);
      DecodingMaskedIsMaskingDecoded(e, hits[1..], h.end, to);
      RangeMapsBack(e, from, h.start);
      var gap := e[Offset(e, from)..Offset(e, h.start)];
      var rest := Splice(e, MapBack(e, hits[1..]), Offset(e, h.end), Offset(e, to));
      DecodeConcat(gap, PLACEHOLDER + rest);
      PlainDecodes(PLACEHOLDER, rest);
      Assoc(gap, PLACEHOLDER, rest);
      Assoc(Decode(e)[from..h.start], PLACEHOLDER, Splice(Decode(e), Placed(hits[1..]), h.end, to));
    }
  }

  // ----- Encoding -----

  /** How an encoder may write one byte: escaped, or as itself when that is safe. */
  predicate Encodes(u: seq<byte>, c: byte) {
    || (|u| == 3 && u[0] == PERCENT && IsHex(u[1]) && IsHex(u[2]) && 16 * HexValue(u[1]) + HexValue(u[2]) == c)
    || (u == [c] && c != PERCENT && c != PLUS)
    || (u == [PLUS] && c == 32)
  }

  const LOWER_DIGITS: seq<byte> := Ascii("0123456789abcdef")
  const UPPER_DIGITS: seq<byte> := Ascii("0123456789ABCDEF")

  /** A byte as an escape, each digit in either case. */
  function EscapeOf(c: byte, upperHigh: bool, upperLow: bool): seq<byte> {
    [PERCENT, (if upperHigh then UPPER_DIGITS else LOWER_DIGITS)[c / 16],
     (if upperLow then UPPER_DIGITS else LOWER_DIGITS)[c % 16]]
  }

  lemma DigitReads(v: nat, upper: bool)
    requires v < 16
    ensures var d := (if upper then UPPER_DIGITS else LOWER_DIGITS)[v]; IsHex(d) && HexValue(d) == v
  {
    assert LOWER_DIGITS == [48, 49, 50, 51, 52, 53, 54, 55, 56, 57, 97, 98, 99, 100, 101, 102];
    assert UPPER_DIGITS == [48, 49, 50, 51, 52, 53, 54, 55, 56, 57, 65, 66, 67, 68, 69, 70];
  }

  lemma ReadDigit(d: byte) returns (upper: bool)
    requires IsHex(d)
    ensures d == (if upper then UPPER_DIGITS else LOWER_DIGITS)[HexValue(d)]
  {
    assert LOWER_DIGITS == [48, 49, 50, 51, 52, 53, 54, 55, 56, 57, 97, 98, 99, 100, 101, 102];
    assert UPPER_DIGITS == [48, 49, 50, 51, 52, 53, 54, 55, 56, 57, 65, 66, 67, 68, 69, 70];
    upper := d <= 70;
  }

  /** The escapes of a byte are a percent sign and its two hexadecimal digits, high one first, and no others. */
  lemma EscapesAre(u: seq<byte>, c: byte)
    ensures |u| == 3 && Encodes(u, c) <==> exists high, low :: u == EscapeOf(c, high, low)
  {
    hide IsHex, HexValue, LOWER_DIGITS, UPPER_DIGITS;
    if |u| == 3 && Encodes(u, c) {
      var high := ReadDigit(u[1]);
      var low := ReadDigit(u[2]);
      assert c / 16 == HexValue(u[1]) && c % 16 == HexValue(u[2]);
      assert u == EscapeOf(c, high, low);
    }
    if high, low :| u == EscapeOf(c, high, low) {
      DigitReads(c / 16, high);
      DigitReads(c % 16, low);
    }
  }

  /** Whatever an encoder chose for each byte, decoding gives the text back. */
  lemma {:induction false} DecodeInvertsEncode(text: seq<byte>, us: seq<seq<byte>>)
    requires |us| == |text| && forall i :: 0 <= i < |us| ==> Encodes(us[i], text[i])
    ensures Decode(Flatten(us)) == text
    decreases |text|
  {
    if text != [] {
      var u, rest := us[0], Flatten(us[1..]);
      DecodeInvertsEncode(text[1..], us[1..]);
      assert Encodes(u, text[0]);
      assert (u + rest)[|u|..] == rest;
      assert [text[0]] + text[1..] == text;
    }
  }
}
