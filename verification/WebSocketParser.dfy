/** The incremental WebSocket parser of one direction, proved against the reader of WebSocket. */
module WebSocketParser {
  import opened Bytes
  import opened Options
  import opened WebSocketFrames
  import opened WebSocket

  datatype ParseStep = StepParsed | StepNeedMore | StepError

  class WsParser {
    const lim: Limits
    var buf: seq<byte>
    /** Bytes before it belong to frames already parsed. */
    var pos: nat
    var moved: nat
    var fragOpcode: Option<Opcode>
    var fragPayload: seq<byte>
    var disabled: bool

    ghost predicate Valid()
      reads this
    {
      pos == 0 && (if disabled then buf == [] else ParseOne(buf, lim).NeedMore?) && |fragPayload| <= lim.sample
    }

    ghost function Asm(): Assembly
      reads this
    {
      Assembly(fragOpcode, fragPayload)
    }

    ghost function State(): Reader
      reads this
    {
      Reader(if disabled then None else Some(buf), Asm())
    }

    constructor (lim: Limits)
      ensures Valid() && State() == FRESH && this.lim == lim && moved == 0
    {
      this.lim := lim;
      buf, pos, moved, fragOpcode, fragPayload, disabled := [], 0, 0, None, [], false;
    }

    /** Each read moves at most twice its bytes, and leaves less than one frame buffered. */
    method Feed(data: seq<byte>) returns (frames: seq<Frame>, messages: seq<seq<byte>>)
      requires Valid()
      modifies this
      ensures Valid()
      ensures Fed(State(), frames, messages) == ReadBytes(old(State()), data, lim)
      ensures forall m :: m in messages ==> |m| <= lim.sample
      ensures |buf| < 14 + lim.maxFrame
      ensures old(disabled) ==> moved == old(moved)
      ensures !old(disabled) ==> old(moved) + |data| <= moved <= old(moved) + 2 * |data|
    {
      hide Frames, Residue, Assemble, FrameList;
      frames, messages := [], [];
      if disabled {
        return;
      }
      buf := buf + data;
      moved := moved + |data|;
      ghost var held := old(buf);
      frames, messages := ParseAll();
      if !disabled {
        ResidueIsUnfinished(held + data, lim);
        if pos > 0 {
          ResidueLiesInNewBytes(held, data, lim);
        }
      }
      Compact();
    }

    /** Parses every complete frame, or stops for good at an oversized one. */
    method ParseAll() returns (frames: seq<Frame>, messages: seq<seq<byte>>)
      requires pos == 0 && !disabled && |fragPayload| <= lim.sample
      modifies this`buf, this`pos, this`fragOpcode, this`fragPayload, this`disabled
      ensures var fs := Frames(old(buf), lim);
        && frames == FrameList(fs)
        && Assembled(Asm(), messages) == Assemble(old(Asm()), fs, lim.sample)
      ensures |fragPayload| <= lim.sample && forall m :: m in messages ==> |m| <= lim.sample
      ensures if disabled then buf == [] && pos == 0 else buf == old(buf) && pos <= |buf|
      ensures Residue(old(buf), lim) == if disabled then None else Some(buf[pos..])
      ensures pos > 0 ==> ParseOne(old(buf), lim).Parsed?
    {
      frames, messages := [], [];
      ghost var all := buf;
      ghost var seen: seq<Sampled> := [];
      ghost var asm := Asm();
      NothingParsed(all, asm, lim);
      hide Frames, Residue, Assemble, FrameList, AssembleOne, ParseOne, ParsedSoFar;
      while true
        invariant buf == all && pos <= |buf| && !disabled
        invariant ParsedSoFar(all, pos, seen, asm, Asm(), frames, messages, lim)
        invariant |fragPayload| <= lim.sample && forall m :: m in messages ==> |m| <= lim.sample
        decreases |buf| - pos
      {
        ghost var at, before := pos, Asm();
        var step, frame, message := TryParseOne();
        match step {
          case StepParsed =>
            OneParsed(all, at, seen, asm, before, frames, messages, lim);
            seen := seen + [ParseOne(all[at..], lim).sampled];
            frames := frames + frame;
            messages := messages + message;
          case StepNeedMore =>
            AllParsed(all, pos, seen, asm, Asm(), frames, messages, lim);
            return;
          case StepError =>
            AllParsed(all, pos, seen, asm, Asm(), frames, messages, lim);
            disabled, buf, pos := true, [], 0;
            return;
        }
      }
    }

    /** Parses the frame at the cursor. */
    method TryParseOne() returns (step: ParseStep, frames: seq<Frame>, messages: seq<seq<byte>>)
      requires pos <= |buf| && |fragPayload| <= lim.sample
      modifies this`pos, this`fragOpcode, this`fragPayload
      ensures match ParseOne(buf[old(pos)..], lim)
        case NeedMore => step == StepNeedMore && pos == old(pos) && Asm() == old(Asm())
        case Oversize => step == StepError && pos == old(pos) && Asm() == old(Asm())
        case Parsed(s, n) =>
          && step == StepParsed && pos == old(pos) + n && frames == [s.frame]
          && Assembled(Asm(), messages) == AssembleOne(old(Asm()), s, lim.sample)
      ensures pos <= |buf| && |fragPayload| <= lim.sample && forall m :: m in messages ==> |m| <= lim.sample
    {
      hide Masked, CloseCode, PayloadLen, LengthBytes, OpcodeOf, AssembleOne;
      frames, messages := [], [];
      var avail := buf[pos..];
      if |avail| < 2 {
        return StepNeedMore, [], [];
      }
      var b0, b1 := avail[0], avail[1];
      var known, payloadLen, offset := ReadLength(avail);
      if !known {
        return StepNeedMore, [], [];
      }
      if payloadLen > lim.maxFrame {
        return StepError, [], [];
      }
      var key: Option<seq<byte>> := None;
      if b1 >= 128 {
        if |avail| < offset + 4 {
          return StepNeedMore, [], [];
        }
        key := Some(avail[offset..offset + 4]);
        offset := offset + 4;
      }
      if |avail| < offset + payloadLen {
        return StepNeedMore, [], [];
      }
      var take := Min(payloadLen, lim.sample);
      var payload := avail[offset..offset + take];
      if key.Some? {
        payload := Unmask(key.value, payload);
      }
      var opcode := OpcodeOf(b0 % 16);
      var fin := b0 >= 128;
      frames := [Frame(fin, opcode, b1 >= 128, payloadLen, CloseCode(opcode, payload))];
      assert FirstFrame(avail, lim) == Sampled(frames[0], payload);
      messages := Reassemble(opcode, fin, payload, FirstFrame(avail, lim));
      pos := pos + offset + payloadLen;
      return StepParsed, frames, messages;
    }

    /** Data frames grow the message being reassembled; control frames are not messages. */
    method Reassemble(opcode: Opcode, fin: bool, payload: seq<byte>, ghost s: Sampled)
      returns (messages: seq<seq<byte>>)
      requires s.frame.opcode == opcode && s.frame.fin == fin && s.payload == payload
      requires |fragPayload| <= lim.sample
      modifies this`fragOpcode, this`fragPayload
      ensures Assembled(Asm(), messages) == AssembleOne(old(Asm()), s, lim.sample)
      ensures |fragPayload| <= lim.sample && forall m :: m in messages ==> |m| <= lim.sample
    {
      messages := [];
      match opcode {
        case Text | Binary =>
          fragOpcode := Some(opcode);
          fragPayload := [];
          AppendFrag(payload);
          if fin {
            messages := [fragPayload];
            fragPayload := [];
            fragOpcode := None;
          }
        case Continuation =>
          if fragOpcode.Some? {
            AppendFrag(payload);
            if fin {
              messages := [fragPayload];
              fragPayload := [];
              fragOpcode := None;
            }
          }
        case _ =>
      }
    }

    method AppendFrag(payload: seq<byte>)
      requires |fragPayload| <= lim.sample
      modifies this`fragPayload
      ensures fragPayload == Append(old(fragPayload), payload, lim.sample) && |fragPayload| <= lim.sample
    {
      var room := lim.sample - |fragPayload|;
      var take := Min(|payload|, room);
      fragPayload := fragPayload + payload[..take];
    }

    /** Drops the consumed prefix. */
    method Compact()
      requires pos <= |buf|
      modifies this`buf, this`pos, this`moved
      ensures pos == 0 && buf == old(buf[pos..])
      ensures moved == old(moved) + (if old(pos) == 0 then 0 else |buf|)
    {
      if pos == 0 {
        return;
      }
      if pos >= |buf| {
        buf := [];
      } else {
        moved := moved + (|buf| - pos);
        buf := buf[pos..];
      }
      pos := 0;
    }
  }

  /** The payload's length and where it ends, once all of it has arrived. */
  method ReadLength(avail: seq<byte>) returns (known: bool, payloadLen: nat, offset: nat)
    requires |avail| >= 2
    ensures known <==> |avail| >= 2 + LengthBytes(avail[1])
    ensures known ==> payloadLen == PayloadLen(avail) && offset == 2 + LengthBytes(avail[1])
  {
    var len7 := avail[1] % 128;
    offset := 2;
    if len7 < 126 {
      return true, len7, offset;
    }
    var width := if len7 == 126 then 2 else 8;
    if |avail| < offset + width {
      return false, 0, offset;
    }
    payloadLen := BigEndian(avail[offset..offset + width]);
    return true, payloadLen, offset + width;
  }

  method Unmask(key: seq<byte>, raw: seq<byte>) returns (payload: seq<byte>)
    requires |key| == 4
    ensures payload == Masked(key, raw)
  {
    payload := [];
    for i := 0 to |raw|
      invariant payload == Masked(key, raw[..i])
    {
      assert raw[..i + 1] == raw[..i] + [raw[i]];
      payload := payload + [Xor(raw[i], key[i % 4])];
    }
    assert raw[..|raw|] == raw;
  }

  // ----- The parse loop -----

  /** The bytes before `pos` gave the frames `seen`, and what follows gives the rest. */
  ghost predicate ParsedSoFar(all: seq<byte>, pos: nat, seen: seq<Sampled>, start: Assembly, now: Assembly,
                         frames: seq<Frame>, messages: seq<seq<byte>>, lim: Limits)
  {
    && pos <= |all|
    && Frames(all, lim) == seen + Frames(all[pos..], lim)
    && Residue(all, lim) == Residue(all[pos..], lim)
    && frames == FrameList(seen)
    && Assemble(start, seen, lim.sample) == Assembled(now, messages)
    && (pos > 0 ==> ParseOne(all, lim).Parsed?)
  }

  lemma NothingParsed(all: seq<byte>, start: Assembly, lim: Limits)
    ensures ParsedSoFar(all, 0, [], start, start, [], [], lim)
  {
    assert all[0..] == all;
  }

  lemma OneParsed(all: seq<byte>, pos: nat, seen: seq<Sampled>, start: Assembly, now: Assembly,
                  frames: seq<Frame>, messages: seq<seq<byte>>, lim: Limits)
    requires ParsedSoFar(all, pos, seen, start, now, frames, messages, lim)
    requires ParseOne(all[pos..], lim).Parsed?
    ensures var p := ParseOne(all[pos..], lim);
      var one := AssembleOne(now, p.sampled, lim.sample);
      ParsedSoFar(all, pos + p.total, seen + [p.sampled], start, one.state, frames + [p.sampled.frame],
             messages + one.messages, lim)
  {
    hide AssembleOne, Assemble, FrameList, Frames, Residue, ParseOne;
    var p := ParseOne(all[pos..], lim);
    CarveFrame(all, pos, lim);
    Assoc(seen, [p.sampled], Frames(all[pos + p.total..], lim));
    FramesOfOne(p.sampled, now, lim);
    FrameListConcat(seen, [p.sampled]);
    AssembleConcat(start, seen, [p.sampled], lim.sample);
  }

  lemma CarveFrame(all: seq<byte>, pos: nat, lim: Limits)
    requires pos <= |all| && ParseOne(all[pos..], lim).Parsed?
    ensures var p := ParseOne(all[pos..], lim);
      && Frames(all[pos..], lim) == [p.sampled] + Frames(all[pos + p.total..], lim)
      && Residue(all[pos..], lim) == Residue(all[pos + p.total..], lim)
    ensures pos == 0 ==> ParseOne(all, lim).Parsed?
  {
    hide ParseOne;
    assert all[pos..][ParseOne(all[pos..], lim).total..] == all[pos + ParseOne(all[pos..], lim).total..];
    assert pos == 0 ==> all[pos..] == all;
  }

  lemma FramesOfOne(s: Sampled, asm: Assembly, lim: Limits)
    ensures FrameList([s]) == [s.frame]
    ensures Assemble(asm, [s], lim.sample) == AssembleOne(asm, s, lim.sample)
  {
    hide AssembleOne;
    var one := AssembleOne(asm, s, lim.sample);
    assert one.messages + [] == one.messages;
  }

  lemma AllParsed(all: seq<byte>, pos: nat, seen: seq<Sampled>, start: Assembly, now: Assembly,
                  frames: seq<Frame>, messages: seq<seq<byte>>, lim: Limits)
    requires ParsedSoFar(all, pos, seen, start, now, frames, messages, lim)
    requires !ParseOne(all[pos..], lim).Parsed?
    ensures Frames(all, lim) == seen
    ensures frames == FrameList(seen) && Assemble(start, seen, lim.sample) == Assembled(now, messages)
    ensures Residue(all, lim) == if ParseOne(all[pos..], lim).Oversize? then None else Some(all[pos..])
    ensures pos > 0 ==> ParseOne(all, lim).Parsed?
  {
    assert seen + [] == seen;
  }
}
