/** HTTP/1 messages: bodies stored up to a cap, and what a header block says about framing. */
module Http1Message {
  import opened Bytes
  import opened Options
  import Utf8

  /** Text is its UTF-8 bytes. */
  datatype Header = Header(name: seq<byte>, value: seq<byte>)

  datatype Message = Message(isRequest: bool, verb: Option<seq<byte>>, path: Option<seq<byte>>, version: nat,
    status: Option<nat>, headers: seq<Header>, headerLen: nat, body: seq<byte>, truncated: bool,
    incomplete: bool, limitations: seq<string>)

  const BODY_CAP_EXCEEDED := "body_cap_exceeded"

  // ----- Storing a body -----

  /** Stores what fits under `cap`; the rest is dropped and marked, once. */
  function AppendCapped(msg: Message, data: seq<byte>, cap: nat): Message {
    var room := if cap > |msg.body| then cap - |msg.body| else 0;
    var stored := msg.(body := msg.body + Take(data, room));
    if room < |data| && !msg.truncated
    then stored.(truncated := true, limitations := stored.limitations + [BODY_CAP_EXCEEDED])
    else stored
  }

  /** A body arriving in two parts is stored as if it had arrived in one. */
  lemma AppendTwice(msg: Message, a: seq<byte>, b: seq<byte>, cap: nat)
    ensures AppendCapped(AppendCapped(msg, a, cap), b, cap) == AppendCapped(msg, a + b, cap)
  {
    var room := if cap > |msg.body| then cap - |msg.body| else 0;
    if |a| < room {
      assert Take(a + b, room) == a + Take(b, room - |a|);
      Assoc(msg.body, a, Take(b, room - |a|));
    } else {
      assert Take(a + b, room) == Take(a, room);
      var first := AppendCapped(msg, a, cap);
      assert Take(b, 0) == [];
      assert first.body + [] == first.body;
    }
  }

  /** A whole body under `cap`: its start, and one marker exactly when that is not all of it. */
  function WithBody(msg: Message, body: seq<byte>, cap: nat): Message {
    msg.(body := Take(body, cap),
         truncated := |body| > cap,
         limitations := if |body| > cap then msg.limitations + [BODY_CAP_EXCEEDED] else msg.limitations)
  }

  lemma AppendToNothing(msg: Message, body: seq<byte>, cap: nat)
    requires msg.body == [] && !msg.truncated
    ensures AppendCapped(msg, body, cap) == WithBody(msg, body, cap)
  {
    assert [] + Take(body, cap) == Take(body, cap);
  }

  // ----- Numbers and lines -----

  const CR: byte := 13
  const LF: byte := 10
  const USIZE_MAX: nat := 0xFFFF_FFFF_FFFF_FFFF

  /** The value of an ASCII digit in any base up to 16, or 16 when it is none. */
  function DigitValue(c: byte): (v: nat)
    ensures v <= 16
  {
    if 48 <= c <= 57 then c - 48
    else if 97 <= c <= 102 then c - 87
    else if 65 <= c <= 70 then c - 55
    else 16
  }

  function Digits(s: seq<byte>, radix: nat): Option<nat>
    requires 2 <= radix <= 16
  {
    if s == [] then Some(0)
    else
      var high, low := Digits(s[..|s| - 1], radix), DigitValue(s[|s| - 1]);
      if high.None? || low >= radix then None else Some(radix * high.value + low)
  }

  /** An unsigned 64-bit number; a leading plus is allowed, an empty numeral or an overflow is not. */
  function ParseUsize(s: seq<byte>, radix: nat): Option<nat>
    requires 2 <= radix <= 16
  {
    var digits := if s != [] && s[0] == 43 then s[1..] else s;
    if digits == [] then None
    else
      var n := Digits(digits, radix);
      if n.Some? && n.value > USIZE_MAX then None else n
  }

  predicate AsciiSpace(c: byte) {
    c == 32 || 9 <= c <= 13
  }

  /** The two- and three-byte encodings of the other white-space characters of Unicode. */
  predicate WideSpace(s: seq<byte>) {
    || s == [0xC2, 0x85] || s == [0xC2, 0xA0]
    || s == [0xE1, 0x9A, 0x80] || s == [0xE2, 0x81, 0x9F] || s == [0xE3, 0x80, 0x80]
    || s == [0xE2, 0x80, 0xA8] || s == [0xE2, 0x80, 0xA9] || s == [0xE2, 0x80, 0xAF]
    || (|s| == 3 && s[0] == 0xE2 && s[1] == 0x80 && 0x80 <= s[2] <= 0x8A)
  }

  /** Length of the white-space character `s` starts with, or 0. */
  function SpaceAtStart(s: seq<byte>): (n: nat)
    ensures n <= |s|
  {
    if s != [] && AsciiSpace(s[0]) then 1
    else if |s| >= 2 && WideSpace(s[..2]) then 2
    else if |s| >= 3 && WideSpace(s[..3]) then 3
    else 0
  }

  function SpaceAtEnd(s: seq<byte>): (n: nat)
    ensures n <= |s|
  {
    if s != [] && AsciiSpace(s[|s| - 1]) then 1
    else if |s| >= 2 && WideSpace(s[|s| - 2..]) then 2
    else if |s| >= 3 && WideSpace(s[|s| - 3..]) then 3
    else 0
  }

  function TrimStart(s: seq<byte>): seq<byte>
    decreases |s|
  {
    if SpaceAtStart(s) > 0 then TrimStart(s[SpaceAtStart(s)..]) else s
  }

  function TrimEnd(s: seq<byte>): seq<byte>
    decreases |s|
  {
    if SpaceAtEnd(s) > 0 then TrimEnd(s[..|s| - SpaceAtEnd(s)]) else s
  }

  function Trim(s: seq<byte>): seq<byte> {
    TrimEnd(TrimStart(s))
  }

  /** What precedes the first semicolon. */
  function BeforeSemicolon(s: seq<byte>): seq<byte> {
    if s == [] || s[0] == 59 then [] else [s[0]] + BeforeSemicolon(s[1..])
  }

  /** The size a chunk-size line declares (section 7.1 of RFC 9112). */
  function ChunkSize(line: seq<byte>): Option<nat> {
    if Utf8.Valid(line) then ParseUsize(Trim(BeforeSemicolon(line)), 16) else None
  }

  /** Where the first CRLF of `b` starts, or its length when there is none. */
  function CrlfAt(b: seq<byte>): (n: nat)
    ensures n <= |b|
  {
    if |b| < 2 then |b| else if b[0] == CR && b[1] == LF then 0 else 1 + CrlfAt(b[1..])
  }

  predicate HasCrlf(b: seq<byte>) {
    CrlfAt(b) < |b|
  }

  lemma {:induction false} CrlfFits(b: seq<byte>)
    requires HasCrlf(b)
    ensures CrlfAt(b) + 2 <= |b|
  {
    if !(b[0] == CR && b[1] == LF) {
      CrlfFits(b[1..]);
    }
  }

  lemma {:induction false} CrlfIsStable(a: seq<byte>, b: seq<byte>)
    requires HasCrlf(a)
    ensures CrlfAt(a + b) == CrlfAt(a)
  {
    if !(a[0] == CR && a[1] == LF) {
      assert (a + b)[1..] == a[1..] + b;
      CrlfIsStable(a[1..], b);
    }
  }

  /** A line without a CRLF ends at the one put after it. */
  lemma {:induction false} LineEnds(line: seq<byte>, rest: seq<byte>)
    requires !HasCrlf(line)
    ensures CrlfAt(line + [CR, LF] + rest) == |line|
  {
    var b := line + [CR, LF] + rest;
    if line != [] {
      assert b[1..] == line[1..] + [CR, LF] + rest;
      assert |line| >= 2 ==> b[1] == line[1];
      LineEnds(line[1..], rest);
    }
  }

  /** Nor does any shorter piece of the line, its carriage return included, hold one. */
  lemma {:induction false} UnfinishedLine(line: seq<byte>, n: nat)
    requires !HasCrlf(line) && n < |line| + 2
    ensures !HasCrlf((line + [CR, LF])[..n])
  {
    var p := (line + [CR, LF])[..n];
    if line != [] && n > 0 {
      assert p[1..] == (line[1..] + [CR, LF])[..n - 1];
      assert |line| >= 2 && n >= 2 ==> p[1] == line[1];
      UnfinishedLine(line[1..], n - 1);
    }
  }

  // ----- Framing (section 6.3 of RFC 9112) -----

  datatype Framing = Length(n: nat) | ChunkedBody | Unframed

  function Lower(s: seq<byte>): (r: seq<byte>)
    ensures |r| == |s|
  {
    seq(|s|, i requires 0 <= i < |s| => if 65 <= s[i] <= 90 then s[i] + 32 else s[i])
  }

  predicate Contains(s: seq<byte>, part: seq<byte>) {
    part <= s || (s != [] && Contains(s[1..], part))
  }

  predicate IsNamed(h: Header, name: string) {
    Lower(h.name) == Ascii(name)
  }

  predicate DeclaresChunked(h: Header) {
    IsNamed(h, "transfer-encoding") && Contains(Lower(h.value), Ascii("chunked"))
  }

  /** The length a header declares, if it is a length and reads as a number. */
  function DeclaredLength(h: Header): Option<nat> {
    if IsNamed(h, "content-length") then ParseUsize(Trim(h.value), 10) else None
  }

  function FirstLength(hs: seq<Header>): Option<nat> {
    if hs == [] then None
    else if DeclaredLength(hs[0]).Some? then DeclaredLength(hs[0])
    else FirstLength(hs[1..])
  }

  function BodyFraming(hs: seq<Header>): Framing {
    if exists h :: h in hs && DeclaresChunked(h) then ChunkedBody
    else match FirstLength(hs)
      case Some(n) => Length(n)
      case None => Unframed
  }

  method ReadFraming(hs: seq<Header>) returns (f: Framing)
    ensures f == BodyFraming(hs)
  {
    hide DeclaresChunked, DeclaredLength;
    for i := 0 to |hs|
      invariant forall k :: 0 <= k < i ==> !DeclaresChunked(hs[k])
    {
      if DeclaresChunked(hs[i]) {
        return ChunkedBody;
      }
    }
    assert hs[0..] == hs;
    for i := 0 to |hs|
      invariant FirstLength(hs) == FirstLength(hs[i..])
    {
      assert hs[i..][1..] == hs[i + 1..];
      var n := DeclaredLength(hs[i]);
      if n.Some? {
        return Length(n.value);
      }
    }
    return Unframed;
  }
}
