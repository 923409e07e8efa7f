/** Chunk-size lines as they are written (section 7.1 of RFC 9112), and what each makes the machine do. */
module Http1Sizes {
  import opened Bytes
  import opened Options
  import opened Http1Message
  import opened Http1Machine
  import opened Http1Bodies
  import opened Http1Framing
  import Utf8

  // ----- Hexadecimal numerals -----

  /** A hexadecimal numeral of `n`: any zeros, then its digits, letters in either case. */
  predicate IsHexNumeral(s: seq<byte>, zeros: nat, n: nat) {
    Lower(s) == Zeros(zeros) + Hex(n)
  }

  lemma HexSnoc(s: seq<byte>, d: nat)
    requires d < 16
    ensures Digits(s + [HexDigit(d)], 16) == (match Digits(s, 16) case None => None case Some(n) => Some(16 * n + d))
  {
    assert (s + [HexDigit(d)])[..|s|] == s;
  }

  lemma {:induction false} HexZerosRead(k: nat)
    ensures Digits(Zeros(k), 16) == Some(0)
  {
    if k > 0 {
      HexZerosRead(k - 1);
      assert Zeros(k) == Zeros(k - 1) + [HexDigit(0)];
      HexSnoc(Zeros(k - 1), 0);
    }
  }

  lemma {:induction false} ZerosHexReads(k: nat, n: nat)
    ensures Digits(Zeros(k) + Hex(n), 16) == Some(n)
    decreases n
  {
    if n < 16 {
      HexZerosRead(k);
      HexSnoc(Zeros(k), n);
    } else {
      ZerosHexReads(k, n / 16);
      HexSnoc(Zeros(k) + Hex(n / 16), n % 16);
      assert Zeros(k) + Hex(n) == Zeros(k) + Hex(n / 16) + [HexDigit(n % 16)];
    }
  }

  /** Case does not matter to a numeral. */
  lemma {:induction false} LowerReads(s: seq<byte>)
    ensures Digits(Lower(s), 16) == Digits(s, 16)
  {
    if s != [] {
      var front := s[..|s| - 1];
      LowerReads(front);
      assert Lower(s)[..|s| - 1] == Lower(front);
    }
  }

  /** Whatever reads as a number is a numeral of it. */
  lemma {:induction false} ReadsHex(s: seq<byte>, n: nat) returns (k: nat)
    requires s != [] && Digits(s, 16) == Some(n)
    ensures IsHexNumeral(s, k, n)
    decreases |s|
  {
    var last := |s| - 1;
    var front, d := s[..last], DigitValue(s[last]);
    assert Lower(s) == Lower(front) + [HexDigit(d)];
    if front == [] {
      k := 0;
      assert Zeros(0) == [];
    } else {
      var m := Digits(front, 16).value;
      k := ReadsHex(front, m);
      if m == 0 {
        assert Zeros(k) + Hex(0) == Zeros(k + 1);
        k := k + 1;
      } else {
        assert Hex(n) == Hex(m) + [HexDigit(d)];
      }
    }
  }

  // ----- Size lines -----

  /** The parts of a size line: white space, an optional plus, a numeral, white space, and an extension if any. */
  datatype Parts = Parts(lead: seq<seq<byte>>, plus: bool, zeros: nat, numeral: seq<byte>, tail: seq<seq<byte>>,
                         extension: seq<byte>)
  {
    function Signed(): seq<byte> {
      (if plus then [43] else []) + numeral
    }

    function Size(): seq<byte> {
      Flatten(lead) + Signed() + Flatten(tail)
    }

    predicate Sizes(n: nat) {
      && Blank(lead) && Blank(tail) && IsHexNumeral(numeral, zeros, n)
      && (extension == [] || extension[0] == 59)
    }
  }

  /** A well-formed text that gives the size `n`, which an address can hold. */
  ghost predicate Sizes(line: seq<byte>, n: nat) {
    Utf8.Valid(line) && n <= USIZE_MAX && exists p: Parts :: p.Sizes(n) && line == p.Size() + p.extension
  }

  lemma {:induction false} ExtensionIsCut(s: seq<byte>, extension: seq<byte>)
    requires 59 !in s && (extension == [] || extension[0] == 59)
    ensures BeforeSemicolon(s + extension) == s
  {
    var b := s + extension;
    if s != [] {
      assert b[0] == s[0] && b[1..] == s[1..] + extension;
      ExtensionIsCut(s[1..], extension);
    }
  }

  lemma {:induction false} ExtensionSplits(s: seq<byte>)
    ensures BeforeSemicolon(s) <= s && 59 !in BeforeSemicolon(s)
    ensures var extension := s[|BeforeSemicolon(s)|..]; extension == [] || extension[0] == 59
  {
    if s != [] && s[0] != 59 {
      ExtensionSplits(s[1..]);
      assert s == [s[0]] + s[1..];
    }
  }

  lemma {:induction false} BlankHasNoSemicolon(us: seq<seq<byte>>)
    requires Blank(us)
    ensures 59 !in Flatten(us)
  {
    if us != [] {
      assert us[0] in us;
      BlankHasNoSemicolon(us[1..]);
    }
  }

  lemma NumeralBytes(s: seq<byte>, zeros: nat, n: nat)
    requires IsHexNumeral(s, zeros, n)
    ensures s != [] && s[0] != 43 && 59 !in s && PlainEnds(s)
  {
    HexReads(n);
    var low := Zeros(zeros) + Hex(n);
    forall i | 0 <= i < |s|
      ensures 48 <= s[i] <= 102 && s[i] != 59
    {
      assert Lower(s)[i] == low[i] && low[i] in low;
    }
  }

  lemma SignedIsPlain(p: Parts, n: nat)
    requires p.Sizes(n)
    ensures PlainEnds(p.Signed()) && 59 !in p.Size()
  {
    hide IsHexNumeral;
    NumeralBytes(p.numeral, p.zeros, n);
    BlankHasNoSemicolon(p.lead);
    BlankHasNoSemicolon(p.tail);
    var signed := p.Signed();
    assert signed[|signed| - 1] == p.numeral[|p.numeral| - 1];
  }

  lemma SignedReads(p: Parts, n: nat)
    requires p.Sizes(n) && n <= USIZE_MAX
    ensures ParseUsize(p.Signed(), 16) == Some(n)
  {
    hide Zeros, Hex, Lower;
    NumeralBytes(p.numeral, p.zeros, n);
    ZerosHexReads(p.zeros, n);
    LowerReads(p.numeral);
    assert p.plus ==> p.Signed()[1..] == p.numeral;
    assert !p.plus ==> p.Signed() == p.numeral;
  }

  lemma SizeIsWritten(line: seq<byte>, n: nat)
    ensures ChunkSize(line) == Some(n) <==> Sizes(line, n)
  {
    hide Blank, IsHexNumeral, Trim, ParseUsize, PlainEnds, Utf8.Valid, BeforeSemicolon, Digits;
    if Sizes(line, n) {
      var p: Parts :| p.Sizes(n) && line == p.Size() + p.extension;
      SignedIsPlain(p, n);
      ExtensionIsCut(p.Size(), p.extension);
      Trimmed(p.lead, p.Signed(), p.tail);
      SignedReads(p, n);
    }
    if ChunkSize(line) == Some(n) {
      var p := SizeSplits(line, n);
      assert p.Sizes(n) && line == p.Size() + p.extension;
    }
  }

  lemma SizeSplits(line: seq<byte>, n: nat) returns (p: Parts)
    requires ParseUsize(Trim(BeforeSemicolon(line)), 16) == Some(n)
    ensures p.Sizes(n) && line == p.Size() + p.extension && n <= USIZE_MAX
  {
    hide Blank, IsHexNumeral, Trim, BeforeSemicolon, Digits;
    var size := BeforeSemicolon(line);
    ExtensionSplits(line);
    var signed := Trim(size);
    var plus := signed != [] && signed[0] == 43;
    var numeral := if plus then signed[1..] else signed;
    var zeros := ReadsHex(numeral, n);
    var lead := TrimStartSplits(size);
    var tail := TrimEndSplits(TrimStart(size));
    TrimIs(size);
    p := Parts(lead, plus, zeros, numeral, tail, line[|size|..]);
    assert p.Signed() == signed;
    Assoc(Flatten(lead), signed, Flatten(tail));
  }

  // ----- What a size line does -----

  /** A whole line decides: a size starts the data, zero the trailers, one past the bound or anything else stops
      the stream, each for its own reason. */
  lemma SizeLineDecides(c: Conf, line: seq<byte>, rest: seq<byte>)
    requires c.state.Chunked? && c.state.dec == Size && !HasCrlf(line)
    ensures var m := MoveChunked(c, line + CRLF + rest);
      && (forall n: nat :: Sizes(line, n) ==>
            m == if n > MAX_CHUNK_SIZE then Stop(CHUNK_SIZE_EXCEEDED)
                 else Go(InChunked(c, if n == 0 then Trailer else Data(n)), |line| + 2, []))
      && ((forall n: nat :: !Sizes(line, n)) ==> m == Stop(NOT_HTTP))
  {
    hide Sizes, ChunkSize;
    LineEnds(line, rest);
    var b := line + CRLF + rest;
    assert b[..|line|] == line;
    forall n: nat
      ensures ChunkSize(line) == Some(n) <==> Sizes(line, n)
    {
      SizeIsWritten(line, n);
    }
  }
}
