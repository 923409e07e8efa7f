/** WebSocket messages reassembled from frames, and the parser of one direction (section 5.4 of RFC 6455). */
module WebSocket {
  import opened Bytes
  import opened Options
  import opened WebSocketFrames

  /** The data message being reassembled: the opcode that opened it, and the kept payload so far. */
  datatype Assembly = Assembly(opcode: Option<Opcode>, payload: seq<byte>)

  const IDLE := Assembly(None, [])

  datatype Assembled = Assembled(state: Assembly, messages: seq<seq<byte>>)

  function Append(held: seq<byte>, payload: seq<byte>, cap: nat): seq<byte> {
    held + Take(payload, if |held| <= cap then cap - |held| else 0)
  }

  /** Grows the message, and hands it over when the frame is its last. */
  function Extend(opcode: Option<Opcode>, held: seq<byte>, s: Sampled, cap: nat): Assembled {
    var payload := Append(held, s.payload, cap);
    if s.frame.fin then Assembled(IDLE, [payload]) else Assembled(Assembly(opcode, payload), [])
  }

  /** Only data frames make messages; a continuation of nothing is ignored. */
  function AssembleOne(asm: Assembly, s: Sampled, cap: nat): Assembled {
    if s.frame.opcode.Text? || s.frame.opcode.Binary? then Extend(Some(s.frame.opcode), [], s, cap)
    else if s.frame.opcode.Continuation? && asm.opcode.Some? then Extend(asm.opcode, asm.payload, s, cap)
    else Assembled(asm, [])
  }

  function Assemble(asm: Assembly, fs: seq<Sampled>, cap: nat): Assembled
    decreases |fs|
  {
    if fs == [] then Assembled(asm, [])
    else
      var first := AssembleOne(asm, fs[0], cap);
      var rest := Assemble(first.state, fs[1..], cap);
      Assembled(rest.state, first.messages + rest.messages)
  }

  lemma {:induction false} AssembleConcat(asm: Assembly, a: seq<Sampled>, b: seq<Sampled>, cap: nat)
    ensures var first := Assemble(asm, a, cap);
      var rest := Assemble(first.state, b, cap);
      Assemble(asm, a + b, cap) == Assembled(rest.state, first.messages + rest.messages)
    decreases |a|
  {
    if a == [] {
      assert a + b == b;
    } else {
      var one := AssembleOne(asm, a[0], cap);
      assert (a + b)[0] == a[0] && (a + b)[1..] == a[1..] + b;
      AssembleConcat(one.state, a[1..], b, cap);
      var more := Assemble(one.state, a[1..], cap);
      Assoc(one.messages, more.messages, Assemble(more.state, b, cap).messages);
    }
  }

  // ----- Messages as an endpoint sends them -----

  /** One data frame of a message, with the control frames sent before it. Where the frame stands
      in the message decides its FIN bit and its opcode. */
  datatype Part = Part(controls: seq<Wire>, data: Wire)

  datatype Message = Message(text: bool, parts: seq<Part>)

  predicate IsControl(w: Wire) {
    w.code != 0 && w.code != 1 && w.code != 2
  }

  function DataFrame(text: bool, opens: bool, ends: bool, w: Wire): Wire {
    w.(fin := ends, code := if !opens then 0 else if text then 1 else 2)
  }

  function Sent(text: bool, opens: bool, parts: seq<Part>): seq<Wire>
    decreases |parts|
  {
    if parts == [] then []
    else parts[0].controls + ([DataFrame(text, opens, |parts| == 1, parts[0].data)] + Sent(text, false, parts[1..]))
  }

  function SentAll(ms: seq<Message>): seq<Wire> {
    if ms == [] then [] else Sent(ms[0].text, true, ms[0].parts) + SentAll(ms[1..])
  }

  function Payload(parts: seq<Part>): seq<byte> {
    if parts == [] then [] else parts[0].data.payload + Payload(parts[1..])
  }

  /** The kept start of every message. */
  function Samples(ms: seq<Message>, cap: nat): seq<seq<byte>> {
    if ms == [] then [] else [Take(Payload(ms[0].parts), cap)] + Samples(ms[1..], cap)
  }

  predicate WellFormed(m: Message) {
    m.parts != [] && forall p :: p in m.parts ==> forall w :: w in p.controls ==> IsControl(w)
  }

  lemma {:induction false} ReceivedConcat(a: seq<Wire>, b: seq<Wire>, lim: Limits)
    ensures ReceivedAll(a + b, lim) == ReceivedAll(a, lim) + ReceivedAll(b, lim)
  {
    if a == [] {
      assert a + b == b;
    } else {
      assert (a + b)[1..] == a[1..] + b;
      ReceivedConcat(a[1..], b, lim);
      Assoc([Received(a[0], lim)], ReceivedAll(a[1..], lim), ReceivedAll(b, lim));
    }
  }

  /** Control frames interleave without touching the message they interrupt. */
  lemma {:induction false} ControlsAreNotMessages(asm: Assembly, ws: seq<Wire>, lim: Limits)
    requires forall w :: w in ws ==> IsControl(w)
    ensures Assemble(asm, ReceivedAll(ws, lim), lim.sample) == Assembled(asm, [])
  {
    if ws != [] {
      assert IsControl(ws[0]);
      ControlsAreNotMessages(asm, ws[1..], lim);
      assert ReceivedAll(ws, lim)[1..] == ReceivedAll(ws[1..], lim);
    }
  }

  /** Keeping the start of each piece within what room is left keeps the start of the whole. */
  lemma AppendKeepsTheStart(p: seq<byte>, q: seq<byte>, cap: nat)
    ensures Append(Take(p, cap), Take(q, cap), cap) == Take(p + q, cap)
  {
    if |p| >= cap {
      assert Take(p + q, cap) == Take(p, cap);
    } else {
      assert Take(Take(q, cap), cap - |p|) == Take(q, cap - |p|);
    }
  }

  lemma PartsConcat(asm: Assembly, text: bool, opens: bool, parts: seq<Part>, lim: Limits)
    requires parts != [] && forall w :: w in parts[0].controls ==> IsControl(w)
    ensures var data := Received(DataFrame(text, opens, |parts| == 1, parts[0].data), lim);
      var first := AssembleOne(asm, data, lim.sample);
      var rest := Assemble(first.state, ReceivedAll(Sent(text, false, parts[1..]), lim), lim.sample);
      Assemble(asm, ReceivedAll(Sent(text, opens, parts), lim), lim.sample)
        == Assembled(rest.state, first.messages + rest.messages)
  {
    hide AssembleOne, Received;
    var w := DataFrame(text, opens, |parts| == 1, parts[0].data);
    var tail := Sent(text, false, parts[1..]);
    ReceivedConcat(parts[0].controls, [w] + tail, lim);
    ControlsAreNotMessages(asm, parts[0].controls, lim);
    AssembleConcat(asm, ReceivedAll(parts[0].controls, lim), ReceivedAll([w] + tail, lim), lim.sample);
    assert ([w] + tail)[1..] == tail;
    var fs := ReceivedAll([w] + tail, lim);
    assert fs == [Received(w, lim)] + ReceivedAll(tail, lim);
    assert fs[1..] == ReceivedAll(tail, lim);
    var done := Assemble(asm, fs, lim.sample);
    assert [] + done.messages == done.messages;
  }

  /** The parts still to come complete a message begun with payload `p`. */
  lemma {:induction false} ContinuationsComplete(asm: Assembly, p: seq<byte>, text: bool, parts: seq<Part>, lim: Limits)
    requires asm.opcode.Some? && asm.payload == Take(p, lim.sample) && parts != []
    requires forall q :: q in parts ==> forall w :: w in q.controls ==> IsControl(w)
    ensures Assemble(asm, ReceivedAll(Sent(text, false, parts), lim), lim.sample)
      == Assembled(IDLE, [Take(p + Payload(parts), lim.sample)])
    decreases |parts|
  {
    hide Assemble, ReceivedAll, Append, Take;
    var q := parts[0].data.payload;
    PartsConcat(asm, text, false, parts, lim);
    AppendKeepsTheStart(p, q, lim.sample);
    Assoc(p, q, Payload(parts[1..]));
    if |parts| == 1 {
      NothingMore(text, parts[1..], IDLE, lim);
      assert p + q + [] == p + q;
    } else {
      ContinuationsComplete(Assembly(asm.opcode, Take(p + q, lim.sample)), p + q, text, parts[1..], lim);
    }
  }

  lemma NothingMore(text: bool, parts: seq<Part>, asm: Assembly, lim: Limits)
    requires parts == []
    ensures Assemble(asm, ReceivedAll(Sent(text, false, parts), lim), lim.sample) == Assembled(asm, [])
    ensures Payload(parts) == []
  {
  }

  /** A message comes back as the start of its concatenated payloads, whatever was being reassembled
      before it and whatever control frames interrupt it. */
  lemma MessageIsAssembled(asm: Assembly, m: Message, lim: Limits)
    requires WellFormed(m)
    ensures Assemble(asm, ReceivedAll(Sent(m.text, true, m.parts), lim), lim.sample)
      == Assembled(IDLE, [Take(Payload(m.parts), lim.sample)])
  {
    hide Assemble, ReceivedAll, Append;
    var p := m.parts[0].data.payload;
    PartsConcat(asm, m.text, true, m.parts, lim);
    AppendKeepsTheStart([], p, lim.sample);
    assert Take<byte>([], lim.sample) == [] && [] + p == p;
    var begun := Assembly(Some(if m.text then Text else Binary), Take(p, lim.sample));
    if |m.parts| == 1 {
      NothingMore(m.text, m.parts[1..], IDLE, lim);
      assert p + [] == p;
    } else {
      ContinuationsComplete(begun, p, m.text, m.parts[1..], lim);
    }
  }

  lemma {:induction false} MessagesAreAssembled(asm: Assembly, ms: seq<Message>, lim: Limits)
    requires forall m :: m in ms ==> WellFormed(m)
    ensures Assemble(asm, ReceivedAll(SentAll(ms), lim), lim.sample).messages == Samples(ms, lim.sample)
    ensures Assemble(asm, ReceivedAll(SentAll(ms), lim), lim.sample).state == if ms == [] then asm else IDLE
    decreases |ms|
  {
    if ms != [] {
      var m := ms[0];
      var first := Sent(m.text, true, m.parts);
      ReceivedConcat(first, SentAll(ms[1..]), lim);
      MessageIsAssembled(asm, m, lim);
      AssembleConcat(asm, ReceivedAll(first, lim), ReceivedAll(SentAll(ms[1..]), lim), lim.sample);
      MessagesAreAssembled(IDLE, ms[1..], lim);
    }
  }

  // ----- One direction of a connection -----

  /** `residue` is None once an oversized frame latched the reader off. */
  datatype Reader = Reader(residue: Option<seq<byte>>, asm: Assembly)

  datatype Fed = Fed(reader: Reader, frames: seq<Frame>, messages: seq<seq<byte>>)

  function FrameList(fs: seq<Sampled>): seq<Frame> {
    if fs == [] then [] else [fs[0].frame] + FrameList(fs[1..])
  }

  predicate Sound(r: Reader, lim: Limits) {
    r.residue.Some? ==> ParseOne(r.residue.value, lim).NeedMore?
  }

  function ReadBytes(r: Reader, data: seq<byte>, lim: Limits): Fed {
    match r.residue
    case None => Fed(r, [], [])
    case Some(held) =>
      var fs := Frames(held + data, lim);
      var done := Assemble(r.asm, fs, lim.sample);
      Fed(Reader(Residue(held + data, lim), done.state), FrameList(fs), done.messages)
  }

  function FeedAll(r: Reader, pieces: seq<seq<byte>>, lim: Limits): Fed
    decreases |pieces|
  {
    if pieces == [] then Fed(r, [], [])
    else
      var first := ReadBytes(r, pieces[0], lim);
      var rest := FeedAll(first.reader, pieces[1..], lim);
      Fed(rest.reader, first.frames + rest.frames, first.messages + rest.messages)
  }

  lemma {:induction false} FrameListConcat(a: seq<Sampled>, b: seq<Sampled>)
    ensures FrameList(a + b) == FrameList(a) + FrameList(b)
  {
    if a == [] {
      assert a + b == b;
    } else {
      assert (a + b)[1..] == a[1..] + b;
      FrameListConcat(a[1..], b);
      Assoc([a[0].frame], FrameList(a[1..]), FrameList(b));
    }
  }

  lemma ReadKeepsSound(r: Reader, data: seq<byte>, lim: Limits)
    requires Sound(r, lim)
    ensures Sound(ReadBytes(r, data, lim).reader, lim)
  {
    if r.residue.Some? && Residue(r.residue.value + data, lim).Some? {
      ResidueIsUnfinished(r.residue.value + data, lim);
    }
  }

  lemma ReadSplit(r: Reader, a: seq<byte>, b: seq<byte>, lim: Limits)
    ensures var first := ReadBytes(r, a, lim);
      var rest := ReadBytes(first.reader, b, lim);
      ReadBytes(r, a + b, lim) == Fed(rest.reader, first.frames + rest.frames, first.messages + rest.messages)
  {
    hide Frames, Residue, Assemble, FrameList;
    if r.residue.Some? {
      var held := r.residue.value;
      Assoc(held, a, b);
      FramesSplit(held + a, b, lim);
      var fs := Frames(held + a, lim);
      match Residue(held + a, lim) {
        case None =>
          assert FrameList(fs) + [] == FrameList(fs);
          var first := ReadBytes(r, a, lim);
          assert first.messages + [] == first.messages;
        case Some(left) =>
          FrameListConcat(fs, Frames(left + b, lim));
          AssembleConcat(r.asm, fs, Frames(left + b, lim), lim.sample);
      }
    }
  }

  /** However the bytes are cut, the frames, the messages and the state after them are those of one
      read; so is the latch, and everything seen before it. */
  lemma {:induction false} CuttingIsInvisible(r: Reader, pieces: seq<seq<byte>>, lim: Limits)
    requires Sound(r, lim)
    ensures FeedAll(r, pieces, lim) == ReadBytes(r, Flatten(pieces), lim)
    decreases |pieces|
  {
    hide Frames, Residue, Assemble, FrameList, Sound, ReadBytes;
    if pieces == [] {
      NothingRead(r, lim);
    } else {
      ReadKeepsSound(r, pieces[0], lim);
      CuttingIsInvisible(ReadBytes(r, pieces[0], lim).reader, pieces[1..], lim);
      ReadSplit(r, pieces[0], Flatten(pieces[1..]), lim);
    }
  }

  lemma NothingRead(r: Reader, lim: Limits)
    requires Sound(r, lim)
    ensures ReadBytes(r, [], lim) == Fed(r, [], [])
  {
    if r.residue.Some? {
      assert r.residue.value + [] == r.residue.value;
    }
  }

  const FRESH := Reader(Some([]), IDLE)

  /** Fragmented, masked and interleaved messages, cut anywhere, come back: every frame with its wire
      length, and every message as the start of its payload. */
  lemma MessagesRoundTrip(ms: seq<Message>, pieces: seq<seq<byte>>, lim: Limits)
    requires forall m :: m in ms ==> WellFormed(m)
    requires forall w :: w in SentAll(ms) ==> Sendable(w, lim)
    requires Flatten(pieces) == SerialiseAll(SentAll(ms), lim)
    ensures FeedAll(FRESH, pieces, lim)
      == Fed(FRESH, FrameList(ReceivedAll(SentAll(ms), lim)), Samples(ms, lim.sample))
  {
    hide Assemble, FrameList, SentAll, ReceivedAll, Samples;
    var bytes := SerialiseAll(SentAll(ms), lim);
    CuttingIsInvisible(FRESH, pieces, lim);
    FramesInvertSerialise(SentAll(ms), [], lim);
    assert bytes + [] == bytes && [] + bytes == bytes;
    var fs := ReceivedAll(SentAll(ms), lim);
    assert fs + [] == fs;
    MessagesAreAssembled(IDLE, ms, lim);
  }

  /** A frame over the limit latches the reader after exactly the frames sent before it, wherever the
      cuts fall and whatever follows. */
  lemma OversizeLatches(ws: seq<Wire>, big: seq<byte>, pieces: seq<seq<byte>>, lim: Limits)
    requires forall w :: w in ws ==> Sendable(w, lim)
    requires ParseOne(big, lim).Oversize?
    requires Flatten(pieces) == SerialiseAll(ws, lim) + big
    ensures var done := FeedAll(FRESH, pieces, lim);
      && done.reader.residue == None
      && done.frames == FrameList(ReceivedAll(ws, lim))
      && done.messages == Assemble(IDLE, ReceivedAll(ws, lim), lim.sample).messages
  {
    hide Assemble, FrameList, ReceivedAll, SerialiseAll;
    CuttingIsInvisible(FRESH, pieces, lim);
    FramesInvertSerialise(ws, big, lim);
    assert [] + Flatten(pieces) == Flatten(pieces);
    assert Frames(big, lim) == [] && Residue(big, lim) == None;
    assert ReceivedAll(ws, lim) + [] == ReceivedAll(ws, lim);
  }
}
