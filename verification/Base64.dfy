/** Standard base64 with padding (section 4 of RFC 4648): the text a binary attribute leaves as. */
module Base64 {
  import opened Bytes
  import opened Options
  import opened Utf8

  const PAD: byte := 61

  /** The character for a six-bit value. */
  function Symbol(v: nat): (c: byte)
    requires v < 64
    ensures 43 <= c < 123 && c != PAD
  {
    if v < 26 then 65 + v else if v < 52 then 71 + v else if v < 62 then v - 4 else if v == 62 then 43 else 47
  }

  function ValueOf(c: byte): Option<nat> {
    if 65 <= c < 91 then Some(c - 65)
    else if 97 <= c < 123 then Some(c - 71)
    else if 48 <= c < 58 then Some(c + 4)
    else if c == 43 then Some(62)
    else if c == 47 then Some(63)
    else None
  }

  /** One, two or three bytes as four characters. */
  function EncodeGroup(s: seq<byte>): (t: seq<byte>)
    requires 1 <= |s| <= 3
    ensures |t| == 4
  {
    if |s| == 1 then [Symbol(s[0] / 4), Symbol(s[0] % 4 * 16), PAD, PAD]
    else if |s| == 2 then
      [Symbol(s[0] / 4), Symbol(s[0] % 4 * 16 + s[1] / 16), Symbol(s[1] % 16 * 4), PAD]
    else
      [Symbol(s[0] / 4), Symbol(s[0] % 4 * 16 + s[1] / 16), Symbol(s[1] % 16 * 4 + s[2] / 64), Symbol(s[2] % 64)]
  }

  function Encode(s: seq<byte>): seq<byte> {
    if s == [] then [] else if |s| <= 3 then EncodeGroup(s) else EncodeGroup(s[..3]) + Encode(s[3..])
  }

  /** The bytes of one group of four characters; padding is legal only where nothing follows. */
  function DecodeGroup(t: seq<byte>, last: bool): Option<seq<byte>>
    requires |t| == 4
  {
    match (ValueOf(t[0]), ValueOf(t[1]), ValueOf(t[2]), ValueOf(t[3]))
    case (Some(a), Some(b), Some(c), Some(d)) =>
      Some([(a * 4 + b / 16) % 256, (b % 16 * 16 + c / 4) % 256, (c % 4 * 64 + d) % 256])
    case (Some(a), Some(b), Some(c), None) =>
      if last && t[3] == PAD then Some([(a * 4 + b / 16) % 256, (b % 16 * 16 + c / 4) % 256]) else None
    case (Some(a), Some(b), None, None) =>
      if last && t[2] == PAD && t[3] == PAD then Some([(a * 4 + b / 16) % 256]) else None
    case _ => None
  }

  function Decode(t: seq<byte>): Option<seq<byte>> {
    if t == [] then Some([])
    else if |t| < 4 then None
    else
      match (DecodeGroup(t[..4], |t| == 4), Decode(t[4..]))
      case (Some(head), Some(tail)) => Some(head + tail)
      case _ => None
  }

  lemma SymbolInverts(v: nat)
    requires v < 64
    ensures ValueOf(Symbol(v)) == Some(v)
  {
  }

  /** The two bit fields of a byte packed from `high` and `low`. */
  lemma Fields(high: nat, low: nat, width: nat)
    requires low < width
    ensures (high * width + low) / width == high && (high * width + low) % width == low
  {
    var x := high * width + low;
    RemainderOf(high, width, low);
    assert x == x / width * width + x % width;
    if x / width < high {
      MulMonotone(x / width + 1, high, width);
    } else if x / width > high {
      MulMonotone(high + 1, x / width, width);
    }
  }

  lemma GroupInverts(s: seq<byte>, last: bool)
    requires 1 <= |s| <= 3 && (|s| < 3 ==> last)
    ensures DecodeGroup(EncodeGroup(s), last) == Some(s)
  {
    hide Symbol, ValueOf;
    NoValueOfPad();
    SymbolInverts(s[0] / 4);
    if |s| == 1 {
      SymbolInverts(s[0] % 4 * 16);
      assert s[0] % 4 * 16 / 16 == s[0] % 4;
      assert s == [s[0]];
    } else {
      SymbolInverts(s[0] % 4 * 16 + s[1] / 16);
      Fields(s[0] % 4, s[1] / 16, 16);
      if |s| == 2 {
        SymbolInverts(s[1] % 16 * 4);
        assert s[1] % 16 * 4 / 4 == s[1] % 16;
        assert s == [s[0], s[1]];
      } else {
        SymbolInverts(s[1] % 16 * 4 + s[2] / 64);
        SymbolInverts(s[2] % 64);
        Fields(s[1] % 16, s[2] / 64, 4);
        assert s == [s[0], s[1], s[2]];
      }
    }
  }

  lemma NoValueOfPad()
    ensures ValueOf(PAD) == None
  {
  }

  /** A decoder gives back exactly the bytes that were encoded. */
  lemma {:induction false} DecodeInvertsEncode(s: seq<byte>)
    ensures Decode(Encode(s)) == Some(s)
  {
    hide EncodeGroup, DecodeGroup;
    if s == [] {
    } else if |s| <= 3 {
      GroupInverts(s, true);
      assert Encode(s)[..4] == Encode(s) && Encode(s)[4..] == [];
      assert s + [] == s;
    } else {
      var head, tail := EncodeGroup(s[..3]), Encode(s[3..]);
      DecodeInvertsEncode(s[3..]);
      EncodedLength(s[3..]);
      GroupInverts(s[..3], false);
      assert (head + tail)[..4] == head && (head + tail)[4..] == tail;
      assert s[..3] + s[3..] == s;
    }
  }

  /** Length of `n` bytes once encoded. */
  function EncodedLen(n: nat): nat {
    4 * ((n + 2) / 3)
  }

  lemma {:induction false} EncodedLength(s: seq<byte>)
    ensures |Encode(s)| == EncodedLen(|s|)
  {
    hide EncodeGroup;
    if |s| > 3 {
      EncodedLength(s[3..]);
    }
  }

  /** What leaves is plain ASCII, so it is text whatever was encoded. */
  lemma {:induction false} EncodedIsText(s: seq<byte>)
    ensures forall c :: c in Encode(s) ==> 32 <= c < 128
  {
    if |s| > 3 {
      EncodedIsText(s[3..]);
    }
  }
}
