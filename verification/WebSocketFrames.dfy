/** WebSocket frames in one direction's bytes (section 5.2 of RFC 6455). */
module WebSocketFrames {
  import opened Bytes
  import opened Options

  datatype Opcode = Continuation | Text | Binary | Close | Ping | Pong | Reserved(code: byte)

  function OpcodeOf(code: byte): Opcode {
    match code
    case 0 => Continuation
    case 1 => Text
    case 2 => Binary
    case 8 => Close
    case 9 => Ping
    case 10 => Pong
    case _ => Reserved(code)
  }

  datatype Limits = Limits(maxFrame: nat, sample: nat)

  datatype Frame = Frame(fin: bool, opcode: Opcode, masked: bool, payloadLen: nat, closeCode: Option<nat>)

  /** A frame with the unmasked start of its payload that is kept. */
  datatype Sampled = Sampled(frame: Frame, payload: seq<byte>)

  datatype Parse = NeedMore | Oversize | Parsed(sampled: Sampled, total: nat)

  // ----- Masking (section 5.3) -----

  function XorBits(a: nat, b: nat, width: nat): nat {
    if width == 0 then 0
    else (if a % 2 == b % 2 then 0 else 1) + 2 * XorBits(a / 2, b / 2, width - 1)
  }

  lemma {:induction false} XorBitsBound(a: nat, b: nat, width: nat)
    ensures XorBits(a, b, width) < Pow2(width)
  {
    if width > 0 {
      XorBitsBound(a / 2, b / 2, width - 1);
    }
  }

  function Xor(a: byte, b: byte): byte {
    XorBitsBound(a, b, 8);
    assert Pow2(8) == 256;
    XorBits(a, b, 8)
  }

  lemma {:induction false} XorBitsTwice(a: nat, b: nat, width: nat)
    requires a < Pow2(width)
    ensures XorBits(XorBits(a, b, width), b, width) == a
  {
    if width > 0 {
      XorBitsTwice(a / 2, b / 2, width - 1);
    }
  }

  lemma XorTwice(a: byte, b: byte)
    ensures Xor(Xor(a, b), b) == a
  {
    assert Pow2(8) == 256;
    XorBitsTwice(a, b, 8);
  }

  /** Masking is its own inverse under one key. */
  function Masked(key: seq<byte>, data: seq<byte>): (r: seq<byte>)
    requires |key| == 4
    ensures |r| == |data|
  {
    seq(|data|, i requires 0 <= i < |data| => Xor(data[i], key[i % 4]))
  }

  lemma MaskedTwice(key: seq<byte>, data: seq<byte>)
    requires |key| == 4
    ensures Masked(key, Masked(key, data)) == data
  {
    forall i | 0 <= i < |data| ensures Masked(key, Masked(key, data))[i] == data[i] {
      XorTwice(data[i], key[i % 4]);
    }
  }

  lemma MaskedPrefix(key: seq<byte>, data: seq<byte>, n: nat)
    requires |key| == 4 && n <= |data|
    ensures Masked(key, data[..n]) == Masked(key, data)[..n]
  {
  }

  // ----- Parsing -----

  /** Bytes of extended length the second header byte announces. */
  function LengthBytes(b1: byte): nat {
    if b1 % 128 < 126 then 0 else if b1 % 128 == 126 then 2 else 8
  }

  function PayloadLen(buf: seq<byte>): nat
    requires |buf| >= 2 && |buf| >= 2 + LengthBytes(buf[1])
  {
    var n := LengthBytes(buf[1]);
    if n == 0 then buf[1] % 128 else BigEndian(buf[2..2 + n])
  }

  function PayloadAt(b1: byte): nat {
    2 + LengthBytes(b1) + if b1 >= 128 then 4 else 0
  }

  function CloseCode(opcode: Opcode, payload: seq<byte>): Option<nat> {
    if opcode.Close? && |payload| >= 2 then Some(BigEndian(payload[..2])) else None
  }

  function ParseOne(buf: seq<byte>, lim: Limits): (p: Parse)
    ensures p.Parsed? ==> 2 <= p.total <= |buf|
  {
    if |buf| < 2 || |buf| < 2 + LengthBytes(buf[1]) then NeedMore
    else if PayloadLen(buf) > lim.maxFrame then Oversize
    else if |buf| < PayloadAt(buf[1]) + PayloadLen(buf) then NeedMore
    else Parsed(FirstFrame(buf, lim), PayloadAt(buf[1]) + PayloadLen(buf))
  }

  function FirstFrame(buf: seq<byte>, lim: Limits): Sampled
    requires |buf| >= 2 && |buf| >= 2 + LengthBytes(buf[1])
    requires |buf| >= PayloadAt(buf[1]) + PayloadLen(buf)
  {
    Keep(buf[0] >= 128, buf[0] % 16, buf[1] >= 128, PayloadLen(buf), FirstSample(buf, lim))
  }

  /** The unmasked start of the first payload, up to the sample cap. */
  function FirstSample(buf: seq<byte>, lim: Limits): seq<byte>
    requires |buf| >= 2 && |buf| >= 2 + LengthBytes(buf[1])
    requires |buf| >= PayloadAt(buf[1]) + PayloadLen(buf)
  {
    var at := PayloadAt(buf[1]);
    var raw := buf[at..at + Min(PayloadLen(buf), lim.sample)];
    if buf[1] >= 128 then Masked(buf[at - 4..at], raw) else raw
  }

  function Keep(fin: bool, code: byte, masked: bool, payloadLen: nat, sample: seq<byte>): Sampled {
    var opcode := OpcodeOf(code);
    Sampled(Frame(fin, opcode, masked, payloadLen, CloseCode(opcode, sample)), sample)
  }

  /** Every complete frame before the first oversized one, in order. */
  function Frames(buf: seq<byte>, lim: Limits): seq<Sampled>
    decreases |buf|
  {
    match ParseOne(buf, lim)
    case Parsed(f, n) => [f] + Frames(buf[n..], lim)
    case _ => []
  }

  /** What stays buffered, or None when an oversized frame latches the parser off. */
  function Residue(buf: seq<byte>, lim: Limits): Option<seq<byte>>
    decreases |buf|
  {
    match ParseOne(buf, lim)
    case Parsed(_, n) => Residue(buf[n..], lim)
    case NeedMore => Some(buf)
    case Oversize => None
  }

  // ----- More bytes never change what was parsed -----

  lemma LengthIsStable(a: seq<byte>, b: seq<byte>)
    requires |a| >= 2 && |a| >= 2 + LengthBytes(a[1])
    ensures (a + b)[0] == a[0] && (a + b)[1] == a[1] && PayloadLen(a + b) == PayloadLen(a)
  {
    hide LengthBytes, BigEndian;
    var n := LengthBytes(a[1]);
    assert (a + b)[1] == a[1];
    assert (a + b)[2..2 + n] == a[2..2 + n];
  }

  lemma SampleIsStable(a: seq<byte>, b: seq<byte>, lim: Limits)
    requires |a| >= 2 && |a| >= 2 + LengthBytes(a[1])
    requires |a| >= PayloadAt(a[1]) + PayloadLen(a)
    ensures (a + b)[1] == a[1] && PayloadLen(a + b) == PayloadLen(a)
    ensures FirstSample(a + b, lim) == FirstSample(a, lim)
  {
    hide LengthBytes, PayloadLen, Masked;
    LengthIsStable(a, b);
    var at, take := PayloadAt(a[1]), Min(PayloadLen(a), lim.sample);
    assert (a + b)[at..at + take] == a[at..at + take];
    assert a[1] >= 128 ==> (a + b)[at - 4..at] == a[at - 4..at];
  }

  lemma ParseIsStable(a: seq<byte>, b: seq<byte>, lim: Limits)
    requires !ParseOne(a, lim).NeedMore?
    ensures ParseOne(a + b, lim) == ParseOne(a, lim)
  {
    hide LengthBytes, PayloadLen, PayloadAt, FirstSample, Keep;
    LengthIsStable(a, b);
    if ParseOne(a, lim).Parsed? {
      SampleIsStable(a, b, lim);
    }
  }

  /** A frame is read from its own bytes alone. */
  lemma ParseIsLocal(buf: seq<byte>, lim: Limits)
    requires ParseOne(buf, lim).Parsed?
    ensures ParseOne(buf[..ParseOne(buf, lim).total], lim) == ParseOne(buf, lim)
  {
    hide PayloadLen, FirstFrame;
    var cut := buf[..ParseOne(buf, lim).total];
    var rest := buf[|cut|..];
    assert cut + rest == buf;
    assert |cut| >= 2 + LengthBytes(buf[1]) && cut[1] == buf[1];
    LengthIsStable(cut, rest);
    assert !ParseOne(cut, lim).NeedMore?;
    ParseIsStable(cut, rest, lim);
  }

  lemma {:induction false} FramesSplit(a: seq<byte>, b: seq<byte>, lim: Limits)
    ensures match Residue(a, lim)
      case None => Frames(a + b, lim) == Frames(a, lim) && Residue(a + b, lim) == None
      case Some(r) =>
        && Frames(a + b, lim) == Frames(a, lim) + Frames(r + b, lim)
        && Residue(a + b, lim) == Residue(r + b, lim)
    decreases |a|
  {
    match ParseOne(a, lim) {
      case NeedMore =>
        assert Frames(a, lim) + Frames(a + b, lim) == Frames(a + b, lim);
      case Oversize =>
        ParseIsStable(a, b, lim);
      case Parsed(f, n) =>
        ParseIsStable(a, b, lim);
        assert (a + b)[n..] == a[n..] + b;
        FramesSplit(a[n..], b, lim);
        if Residue(a, lim).Some? {
          Assoc([f], Frames(a[n..], lim), Frames(Residue(a, lim).value + b, lim));
        }
    }
  }

  /** What is buffered is one unfinished frame: a header and less than a payload. */
  lemma {:induction false} ResidueIsUnfinished(buf: seq<byte>, lim: Limits)
    requires Residue(buf, lim).Some?
    ensures ParseOne(Residue(buf, lim).value, lim).NeedMore?
    ensures |Residue(buf, lim).value| < 14 + lim.maxFrame
    ensures |Residue(buf, lim).value| <= |buf|
    decreases |buf|
  {
    if ParseOne(buf, lim).Parsed? {
      ResidueIsUnfinished(buf[ParseOne(buf, lim).total..], lim);
    }
  }

  /** Once a pending prefix completes, what remains lies wholly inside the new bytes. */
  lemma ResidueLiesInNewBytes(a: seq<byte>, b: seq<byte>, lim: Limits)
    requires ParseOne(a, lim).NeedMore? && ParseOne(a + b, lim).Parsed?
    requires Residue(a + b, lim).Some?
    ensures |Residue(a + b, lim).value| <= |b|
  {
    var n := ParseOne(a + b, lim).total;
    if n < |a| {
      ParseIsLocal(a + b, lim);
      assert (a + b)[..n] == a[..n];
      assert a[..n] + a[n..] == a;
      ParseIsStable(a[..n], a[n..], lim);
      assert false;
    }
    ResidueIsUnfinished((a + b)[n..], lim);
  }

  // ----- Serialising -----

  /** A frame as some endpoint chose to send it; `lengthBytes` is the form of its length. */
  datatype Wire = Wire(fin: bool, reserved: nat, code: byte, lengthBytes: nat, key: Option<seq<byte>>,
      payload: seq<byte>)

  predicate Sendable(w: Wire, lim: Limits) {
    && w.reserved < 8 && w.code < 16
    && |w.payload| <= lim.maxFrame
    && (w.key.Some? ==> |w.key.value| == 4)
    && (|| (w.lengthBytes == 0 && |w.payload| < 126)
        || (w.lengthBytes == 2 && |w.payload| < Pow256(2))
        || (w.lengthBytes == 8 && |w.payload| < Pow256(8)))
  }

  function SecondByte(w: Wire, lim: Limits): byte
    requires Sendable(w, lim)
  {
    (if w.key.Some? then 128 else 0)
    + if w.lengthBytes == 0 then |w.payload| else if w.lengthBytes == 2 then 126 else 127
  }

  function Header(w: Wire, lim: Limits): seq<byte>
    requires Sendable(w, lim)
  {
    [(if w.fin then 128 else 0) + 16 * w.reserved + w.code, SecondByte(w, lim)]
    + ToBigEndian(|w.payload|, w.lengthBytes)
  }

  function Body(w: Wire, lim: Limits): (body: seq<byte>)
    requires Sendable(w, lim)
    ensures |body| == |w.payload| + if w.key.Some? then 4 else 0
  {
    match w.key
    case None => w.payload
    case Some(k) => k + Masked(k, w.payload)
  }

  function Serialise(w: Wire, lim: Limits): seq<byte>
    requires Sendable(w, lim)
  {
    Header(w, lim) + Body(w, lim)
  }

  function SerialiseAll(ws: seq<Wire>, lim: Limits): seq<byte>
    requires forall w :: w in ws ==> Sendable(w, lim)
  {
    if ws == [] then [] else Serialise(ws[0], lim) + SerialiseAll(ws[1..], lim)
  }

  /** What a receiver keeps of a frame: its wire length whole, its payload up to the sample cap. */
  function Received(w: Wire, lim: Limits): Sampled
  {
    Keep(w.fin, w.code, w.key.Some?, |w.payload|, Take(w.payload, lim.sample))
  }

  /** The code an opcode is sent as (section 11.8 of RFC 6455). */
  function CodeOf(op: Opcode): byte {
    match op
    case Continuation => 0x0
    case Text => 0x1
    case Binary => 0x2
    case Close => 0x8
    case Ping => 0x9
    case Pong => 0xA
    case Reserved(code) => code
  }

  /** A reserved opcode is none of those with a name. */
  predicate Proper(op: Opcode) {
    op.Reserved? ==> 3 <= op.code <= 7 || 0xB <= op.code <= 0xF
  }

  /** A frame sent under an opcode is received under it; a close frame's code is its first two bytes, when kept. */
  lemma ReceivedSays(w: Wire, op: Opcode, lim: Limits)
    requires Proper(op) && w.code == CodeOf(op)
    ensures Received(w, lim) ==
      Sampled(Frame(w.fin, op, w.key.Some?, |w.payload|,
                    if op.Close? && |w.payload| >= 2 && lim.sample >= 2 then
                      Some(256 * (w.payload[0] as int) + w.payload[1] as int)
                    else None),
              Take(w.payload, lim.sample))
  {
    var kept := Take(w.payload, lim.sample);
    if |kept| >= 2 {
      var two := [w.payload[0], w.payload[1]];
      assert kept[..2] == two && two[..1] == [w.payload[0]] && two[..1][..0] == [];
      assert BigEndian([w.payload[0]]) == w.payload[0] as int;
      assert BigEndian(two) == 256 * BigEndian(two[..1]) + two[1];
    }
  }

  function ReceivedAll(ws: seq<Wire>, lim: Limits): seq<Sampled> {
    if ws == [] then [] else [Received(ws[0], lim)] + ReceivedAll(ws[1..], lim)
  }

  lemma HeaderIsRead(w: Wire, body: seq<byte>, lim: Limits)
    requires Sendable(w, lim)
    ensures var buf := Header(w, lim) + body;
      && buf[0] % 16 == w.code && (buf[0] >= 128 <==> w.fin) && (buf[1] >= 128 <==> w.key.Some?)
      && LengthBytes(buf[1]) == w.lengthBytes
      && PayloadLen(buf) == |w.payload|
  {
    hide BigEndian, ToBigEndian, Pow256;
    var buf := Header(w, lim) + body;
    var n := w.lengthBytes;
    assert buf[1] == SecondByte(w, lim);
    SecondByteIsRead(w, lim);
    assert buf[2..2 + n] == ToBigEndian(|w.payload|, n);
    if n > 0 {
      BigEndianInverts(|w.payload|, n);
    }
  }

  lemma SecondByteIsRead(w: Wire, lim: Limits)
    requires Sendable(w, lim)
    ensures var b1 := SecondByte(w, lim);
      && (b1 >= 128 <==> w.key.Some?) && LengthBytes(b1) == w.lengthBytes
      && (w.lengthBytes == 0 ==> b1 % 128 == |w.payload|)
  {
    hide Pow256;
  }

  lemma SampleIsRead(w: Wire, rest: seq<byte>, buf: seq<byte>, lim: Limits)
    requires Sendable(w, lim) && buf == Header(w, lim) + (Body(w, lim) + rest)
    requires LengthBytes(buf[1]) == w.lengthBytes && PayloadLen(buf) == |w.payload|
    requires buf[1] >= 128 <==> w.key.Some?
    ensures FirstSample(buf, lim) == Take(w.payload, lim.sample)
  {
    hide Header, Sendable, PayloadLen, LengthBytes, BigEndian;
    var h := Header(w, lim);
    assert |h| == 2 + w.lengthBytes by {
      HeaderLength(w, lim);
    }
    var at, take := PayloadAt(buf[1]), Min(|w.payload|, lim.sample);
    match w.key {
      case None =>
        assert buf[at..at + take] == w.payload[..take];
      case Some(k) =>
        SendableKey(w, lim);
        assert buf[at - 4..at] == k;
        assert buf[at..at + take] == Masked(k, w.payload)[..take];
        MaskedPrefix(k, Masked(k, w.payload), take);
        MaskedTwice(k, w.payload);
    }
  }

  lemma HeaderLength(w: Wire, lim: Limits)
    requires Sendable(w, lim)
    ensures |Header(w, lim)| == 2 + w.lengthBytes
  {
  }

  lemma SendableKey(w: Wire, lim: Limits)
    requires Sendable(w, lim) && w.key.Some?
    ensures |w.key.value| == 4
  {
  }

  lemma FrameIsRead(w: Wire, rest: seq<byte>, lim: Limits)
    requires Sendable(w, lim)
    ensures ParseOne(Serialise(w, lim) + rest, lim) == Parsed(Received(w, lim), |Serialise(w, lim)|)
  {
    hide Header, Body, PayloadLen, LengthBytes, FirstSample, Keep, BigEndian;
    Assoc(Header(w, lim), Body(w, lim), rest);
    var buf := Header(w, lim) + (Body(w, lim) + rest);
    HeaderIsRead(w, Body(w, lim) + rest, lim);
    HeaderLength(w, lim);
    SampleIsRead(w, rest, buf, lim);
  }

  /** Parsing undoes serialising, for every mask and every form of the length. */
  lemma {:induction false} FramesInvertSerialise(ws: seq<Wire>, rest: seq<byte>, lim: Limits)
    requires forall w :: w in ws ==> Sendable(w, lim)
    ensures Frames(SerialiseAll(ws, lim) + rest, lim) == ReceivedAll(ws, lim) + Frames(rest, lim)
    ensures Residue(SerialiseAll(ws, lim) + rest, lim) == Residue(rest, lim)
  {
    if ws == [] {
      assert SerialiseAll(ws, lim) + rest == rest;
    } else {
      var w, more := ws[0], ws[1..];
      FramesInvertSerialise(more, rest, lim);
      var first, tail := Serialise(w, lim), SerialiseAll(more, lim) + rest;
      Assoc(first, SerialiseAll(more, lim), rest);
      FrameIsRead(w, tail, lim);
      assert (first + tail)[|first|..] == tail;
      Assoc([Received(w, lim)], ReceivedAll(more, lim), Frames(rest, lim));
    }
  }
}
