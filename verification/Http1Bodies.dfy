/** Chunked bodies read back, what stays buffered between reads, and how a stream ends. */
module Http1Bodies {
  import opened Bytes
  import opened Options
  import opened Http1Message
  import opened Http1Machine
  import opened Http1Cutting
  import Utf8

  // ----- A chunked body on the wire (section 7.1 of RFC 9112) -----

  /** A chunk under whatever size line an encoder chose for it. */
  datatype Chunk = Chunk(line: seq<byte>, data: seq<byte>)

  datatype ChunkedBytes = ChunkedBytes(chunks: seq<Chunk>, last: seq<byte>, trailers: seq<seq<byte>>)

  const CRLF: seq<byte> := [CR, LF]

  predicate SizeLine(line: seq<byte>, size: nat) {
    !HasCrlf(line) && ChunkSize(line) == Some(size) && size <= MAX_CHUNK_SIZE
  }

  predicate ChunkOk(k: Chunk) {
    k.data != [] && SizeLine(k.line, |k.data|)
  }

  predicate TrailerOk(t: seq<byte>) {
    t != [] && !HasCrlf(t)
  }

  predicate BytesOk(b: ChunkedBytes) {
    && (forall k :: k in b.chunks ==> ChunkOk(k))
    && SizeLine(b.last, 0)
    && (forall t :: t in b.trailers ==> TrailerOk(t))
  }

  function ChunkWire(k: Chunk): seq<byte> {
    k.line + CRLF + (k.data + CRLF)
  }

  function ChunksWire(ks: seq<Chunk>): seq<byte> {
    if ks == [] then [] else ChunkWire(ks[0]) + ChunksWire(ks[1..])
  }

  function TrailersWire(ts: seq<seq<byte>>): seq<byte> {
    if ts == [] then CRLF else ts[0] + CRLF + TrailersWire(ts[1..])
  }

  /** The chunks and the line that says there are no more. */
  function DataWire(b: ChunkedBytes): seq<byte> {
    ChunksWire(b.chunks) + (b.last + CRLF)
  }

  function Wire(b: ChunkedBytes): seq<byte> {
    DataWire(b) + TrailersWire(b.trailers)
  }

  function Payload(ks: seq<Chunk>): seq<byte> {
    if ks == [] then [] else ks[0].data + Payload(ks[1..])
  }

  function At(c: Conf, msg: Message, dec: ChunkState): Conf
    requires c.state.Chunked?
  {
    c.(state := Chunked(msg, dec, c.state.cap))
  }

  predicate ReadingSize(c: Conf) {
    c.state.Chunked? && c.state.dec.Size?
  }

  lemma SizeLineRead(env: Env, c: Conf, line: seq<byte>, size: nat, rest: seq<byte>)
    requires PrefixStable(env) && ReadingSize(c) && SizeLine(line, size)
    ensures Drive(env, c, line + CRLF + rest)
      == Drive(env, InChunked(c, if size == 0 then Trailer else Data(size)), rest)
  {
    hide PrefixStable, Drive, ChunkSize;
    var b := line + CRLF + rest;
    LineEnds(line, rest);
    assert b[..|line|] == line && b[|line| + 2..] == rest;
    DriveGoes(env, c, b);
    var next := InChunked(c, if size == 0 then Trailer else Data(size));
    assert [] + Drive(env, next, rest).done == Drive(env, next, rest).done;
  }

  lemma DataRead(env: Env, c: Conf, size: nat, data: seq<byte>, rest: seq<byte>)
    requires PrefixStable(env) && c.state.Chunked? && c.state.dec == Data(size) && |data| == size > 0
    ensures Drive(env, c, data + rest)
      == Drive(env, At(c, AppendCapped(c.state.msg, data, c.state.cap), DataCrlf), rest)
  {
    hide PrefixStable, Drive, AppendCapped;
    assert (data + rest)[..size] == data && (data + rest)[size..] == rest;
    DriveGoes(env, c, data + rest);
    var next := At(c, AppendCapped(c.state.msg, data, c.state.cap), DataCrlf);
    assert [] + Drive(env, next, rest).done == Drive(env, next, rest).done;
  }

  lemma DataCrlfRead(env: Env, c: Conf, rest: seq<byte>)
    requires PrefixStable(env) && c.state.Chunked? && c.state.dec == DataCrlf
    ensures Drive(env, c, CRLF + rest) == Drive(env, InChunked(c, Size), rest)
  {
    hide PrefixStable, Drive;
    assert (CRLF + rest)[2..] == rest;
    DriveGoes(env, c, CRLF + rest);
    assert [] + Drive(env, InChunked(c, Size), rest).done == Drive(env, InChunked(c, Size), rest).done;
  }

  lemma OneChunkRead(env: Env, c: Conf, k: Chunk, rest: seq<byte>)
    requires PrefixStable(env) && ReadingSize(c) && ChunkOk(k)
    ensures Drive(env, c, ChunkWire(k) + rest)
      == Drive(env, At(c, AppendCapped(c.state.msg, k.data, c.state.cap), Size), rest)
  {
    hide PrefixStable, Drive, SizeLine, AppendCapped;
    Assoc(k.line + CRLF, k.data + CRLF, rest);
    Assoc(k.data, CRLF, rest);
    SizeLineRead(env, c, k.line, |k.data|, k.data + (CRLF + rest));
    var c1 := InChunked(c, Data(|k.data|));
    DataRead(env, c1, |k.data|, k.data, CRLF + rest);
    DataCrlfRead(env, At(c1, AppendCapped(c.state.msg, k.data, c.state.cap), DataCrlf), rest);
  }

  lemma {:induction false} ChunksRead(env: Env, c: Conf, ks: seq<Chunk>, rest: seq<byte>)
    requires PrefixStable(env) && ReadingSize(c) && forall k :: k in ks ==> ChunkOk(k)
    ensures Drive(env, c, ChunksWire(ks) + rest)
      == Drive(env, At(c, AppendCapped(c.state.msg, Payload(ks), c.state.cap), Size), rest)
    decreases |ks|
  {
    hide PrefixStable, Drive, ChunkOk, ChunkWire;
    var Chunked(msg, _, cap) := c.state;
    if ks == [] {
      assert ChunksWire(ks) + rest == rest;
      NothingAppended(msg, cap);
    } else {
      Assoc(ChunkWire(ks[0]), ChunksWire(ks[1..]), rest);
      OneChunkRead(env, c, ks[0], ChunksWire(ks[1..]) + rest);
      ChunksRead(env, At(c, AppendCapped(msg, ks[0].data, cap), Size), ks[1..], rest);
      AppendTwice(msg, ks[0].data, Payload(ks[1..]), cap);
    }
  }

  lemma NothingAppended(msg: Message, cap: nat)
    ensures AppendCapped(msg, [], cap) == msg
  {
    assert msg.body + [] == msg.body;
  }

  lemma TrailerNext(ts: seq<seq<byte>>, rest: seq<byte>)
    ensures TrailersWire(ts) + rest
      == if ts == [] then [] + CRLF + rest else ts[0] + CRLF + (TrailersWire(ts[1..]) + rest)
  {
    if ts != [] {
      Assoc(ts[0] + CRLF, TrailersWire(ts[1..]), rest);
    } else {
      assert [] + CRLF == CRLF;
    }
  }

  lemma NoCrlfInNothing()
    ensures !HasCrlf([])
  {
  }

  lemma {:induction false} TrailersRead(env: Env, c: Conf, ts: seq<seq<byte>>, rest: seq<byte>)
    requires PrefixStable(env) && c.state.Chunked? && c.state.dec.Trailer?
    requires forall t :: t in ts ==> TrailerOk(t)
    ensures Drive(env, c, TrailersWire(ts) + rest)
      == Then(Driven(c, [], [c.state.msg]), Drive(env, c.(state := Headers), rest))
    decreases |ts|
  {
    hide PrefixStable, Drive, CrlfAt, TrailersWire;
    TrailerNext(ts, rest);
    var line := if ts == [] then [] else ts[0];
    var tail := if ts == [] then rest else TrailersWire(ts[1..]) + rest;
    var b := TrailersWire(ts) + rest;
    assert ts != [] ==> TrailerOk(ts[0]);
    NoCrlfInNothing();
    LineEnds(line, tail);
    assert b[|line| + 2..] == tail;
    DriveGoes(env, c, b);
    if ts != [] {
      TrailersRead(env, c, ts[1..], rest);
      assert [] + Drive(env, c, tail).done == Drive(env, c, tail).done;
    }
  }

  /** A chunked body read back: its start under the cap, and the boundary after it wherever the cap is. */
  lemma ChunkedBodyRead(env: Env, c: Conf, b: ChunkedBytes, rest: seq<byte>)
    requires PrefixStable(env) && ReadingSize(c) && BytesOk(b)
    ensures Drive(env, c, Wire(b) + rest)
      == Then(Driven(c, [], [AppendCapped(c.state.msg, Payload(b.chunks), c.state.cap)]),
              Drive(env, c.(state := Headers), rest))
  {
    hide PrefixStable, Drive, SizeLine, ChunkOk, TrailerOk, AppendCapped, ChunksWire, TrailersWire;
    DataWireRead(env, c, b, TrailersWire(b.trailers) + rest);
    Assoc(DataWire(b), TrailersWire(b.trailers), rest);
    var msg := AppendCapped(c.state.msg, Payload(b.chunks), c.state.cap);
    TrailersRead(env, At(c, msg, Trailer), b.trailers, rest);
  }

  lemma DataWireRead(env: Env, c: Conf, b: ChunkedBytes, rest: seq<byte>)
    requires PrefixStable(env) && ReadingSize(c) && BytesOk(b)
    ensures Drive(env, c, DataWire(b) + rest)
      == Drive(env, At(c, AppendCapped(c.state.msg, Payload(b.chunks), c.state.cap), Trailer), rest)
  {
    hide PrefixStable, Drive, SizeLine, ChunkOk, TrailerOk, AppendCapped, ChunksWire;
    Assoc(ChunksWire(b.chunks), b.last + CRLF, rest);
    ChunksRead(env, c, b.chunks, b.last + CRLF + rest);
    var msg := AppendCapped(c.state.msg, Payload(b.chunks), c.state.cap);
    SizeLineRead(env, At(c, msg, Size), b.last, 0, rest);
  }

  // ----- Size lines -----

  function HexDigit(d: nat): byte
    requires d < 16
  {
    if d < 10 then 48 + d else 87 + d
  }

  function Hex(n: nat): seq<byte> {
    if n < 16 then [HexDigit(n)] else Hex(n / 16) + [HexDigit(n % 16)]
  }

  lemma {:induction false} HexReads(n: nat)
    ensures Hex(n) != [] && Digits(Hex(n), 16) == Some(n)
    ensures forall c :: c in Hex(n) ==> 48 <= c <= 57 || 97 <= c <= 102
  {
    var s := Hex(n);
    if n >= 16 {
      HexReads(n / 16);
      assert s[..|s| - 1] == Hex(n / 16);
    } else {
      assert s[..|s| - 1] == [];
    }
  }

  lemma {:induction false} PlainText(s: seq<byte>)
    requires forall c :: c in s ==> 33 <= c < 128 && c != 59
    ensures Utf8.Valid(s) && BeforeSemicolon(s) == s && !HasCrlf(s)
  {
    if s != [] {
      assert s[0] in s;
      assert forall c :: c in s[1..] ==> c in s;
      PlainText(s[1..]);
      assert Utf8.CharLen(s) == 1;
    }
  }

  lemma PlainIsTrimmed(s: seq<byte>)
    requires s != [] && 33 <= s[0] < 128 && 33 <= s[|s| - 1] < 128
    ensures Trim(s) == s
  {
    hide SpaceAtStart, SpaceAtEnd;
    assert SpaceAtStart(s) == 0 && SpaceAtEnd(s) == 0 by {
      NoSpace(s);
    }
  }

  lemma NoSpace(s: seq<byte>)
    requires s != [] && 33 <= s[0] < 128 && 33 <= s[|s| - 1] < 128
    ensures SpaceAtStart(s) == 0 && SpaceAtEnd(s) == 0
  {
    hide WideSpace;
    if |s| >= 2 {
      NotWide(s, 2);
    }
    if |s| >= 3 {
      NotWide(s, 3);
    }
  }

  lemma NotWide(s: seq<byte>, k: nat)
    requires 0 < k <= |s| && s[0] < 128 && s[|s| - 1] < 128
    ensures !WideSpace(s[..k]) && !WideSpace(s[|s| - k..])
  {
    hide WideSpace;
    var front, back := s[..k], s[|s| - k..];
    assert front[0] == s[0] && back[k - 1] == s[|s| - 1];
    WideSpaceIsWide(front);
    WideSpaceIsWide(back);
  }

  lemma WideSpaceIsWide(s: seq<byte>)
    requires s != []
    ensures WideSpace(s) ==> s[0] >= 128 && s[|s| - 1] >= 128
  {
  }

  /** The plain hexadecimal numeral of a size is a size line for it. */
  lemma HexIsSizeLine(n: nat)
    requires n <= MAX_CHUNK_SIZE
    ensures SizeLine(Hex(n), n)
  {
    hide Utf8.Valid, HasCrlf, Digits, Hex, Trim;
    HexReads(n);
    var s := Hex(n);
    PlainText(s);
    assert s[0] in s && s[|s| - 1] in s;
    PlainIsTrimmed(s);
  }

  // ----- What stays buffered, and how a stream ends -----

  /** Between reads a body, an unframed body, a tunnel and chunk data keep nothing back; the gap after
      a chunk keeps at most one byte, and a size or trailer line keeps no CRLF. */
  predicate Shape(c: Conf, buf: seq<byte>) {
    match c.state
    case Headers => true
    case Body(_, remaining, _) => buf == [] && remaining > 0
    case UntilClose(_, _) => buf == []
    case Tunnel => buf == []
    case Disabled(_) => buf == []
    case Chunked(_, dec, _) =>
      match dec
      case Data(remaining) => buf == [] && remaining > 0
      case DataCrlf => |buf| <= 1
      case _ => !HasCrlf(buf)
  }

  /** A chunk being read always has bytes to come. */
  predicate Sane(s: State) {
    s.Chunked? && s.dec.Data? ==> s.dec.remaining > 0
  }

  lemma MoveKeepsSane(env: Env, c: Conf, b: seq<byte>)
    requires MoveOne(env, c, b).Go? && Sane(c.state)
    ensures Sane(MoveOne(env, c, b).next.state)
  {
    hide ChunkSize, AppendCapped, BodyFraming;
  }

  lemma {:induction false} DriveKeepsSane(env: Env, c: Conf, b: seq<byte>)
    requires PrefixStable(env) && Sane(c.state)
    ensures Sane(Drive(env, c, b).conf.state)
    decreases |b|, Rank(c.state)
  {
    hide PrefixStable, MoveOne, Sane;
    var m := MoveOne(env, c, b);
    match m {
      case Wait => DriveWaits(env, c, b);
      case Stop(_) =>
        StoppedIsDisabled(env, c, b);
        DisabledIsSane(c.(state := Disabled(m.reason)));
      case Go(next, used, _) =>
        MoveKeepsSane(env, c, b);
        MoveProgresses(env, c, b);
        DriveGoes(env, c, b);
        DriveKeepsSane(env, next, b[used..]);
    }
  }

  lemma DisabledIsSane(c: Conf)
    requires c.state.Disabled?
    ensures Sane(c.state)
  {
  }

  lemma WaitingHasShape(env: Env, s: Stream)
    requires Sound(env, s) && Sane(s.conf.state)
    ensures Shape(s.conf, s.buf)
  {
  }

  /** Every run of reads leaves the stream in shape. */
  lemma {:induction false} RunsStayInShape(env: Env, s: Stream, pieces: seq<seq<byte>>)
    requires PrefixStable(env) && Sound(env, s) && Sane(s.conf.state)
    ensures var after := FeedAll(env, s, pieces).stream;
      Sound(env, after) && Sane(after.conf.state) && Shape(after.conf, after.buf)
    decreases |pieces|
  {
    hide PrefixStable, Sound, Shape, Drive, Sane;
    if pieces == [] {
      WaitingHasShape(env, s);
    } else {
      var d := Drive(env, s.conf, s.buf + pieces[0]);
      FeedKeepsSound(env, s, pieces[0]);
      DriveKeepsSane(env, s.conf, s.buf + pieces[0]);
      DisabledIsSane(Latched(d.conf.answering).conf);
      RunsStayInShape(env, FeedOnce(env, s, pieces[0]).stream, pieces[1..]);
    }
  }

  /** The stream ended; `peerClosed` says whether the peer's end of stream was seen. */
  function Finish(isRequest: bool, s: Stream, peerClosed: bool): (Stream, Option<Message>) {
    if isRequest then (s, None)
    else
      var idle := Stream(s.conf.(state := Headers), []);
      match s.conf.state
      case UntilClose(msg, _) => (idle, Some(if peerClosed then msg else CutOff(msg)))
      case Chunked(msg, dec, _) => (idle, Some(if dec.Trailer? then msg else CutOff(msg)))
      case Body(msg, _, _) => (idle, Some(CutOff(msg)))
      case _ => (s, None)
  }

  function CutOff(msg: Message): Message {
    msg.(truncated := true, incomplete := true)
  }

  function Ended(d: Driven, peerClosed: bool): Option<Message> {
    Finish(false, Stream(d.conf, d.residue), peerClosed).1
  }

  /** A body of declared length is handed over by reading exactly when its last byte arrived; short of
      that, ending the stream hands over what arrived, incomplete. */
  lemma LengthEnding(env: Env, c: Conf, data: seq<byte>, peerClosed: bool)
    requires PrefixStable(env) && c.state.Body?
    ensures var Body(msg, n, cap) := c.state;
      var d := Drive(env, c, data);
      if |data| < n then d.done == [] && Ended(d, peerClosed) == Some(CutOff(AppendCapped(msg, data, cap)))
      else d.done != [] && d.done[0] == AppendCapped(msg, data[..n], cap)
  {
    hide PrefixStable, Drive, AppendCapped;
    var Body(msg, n, cap) := c.state;
    if |data| >= n || data != [] {
      DriveGoes(env, c, data);
      if |data| < n {
        assert data[|data|..] == [];
        DriveWaits(env, MoveOne(env, c, data).next, []);
      }
    } else {
      DriveWaits(env, c, data);
      NothingAppended(msg, cap);
    }
  }

  /** An unframed body is whole exactly when the peer's end of stream was seen. */
  lemma UnframedEnding(env: Env, c: Conf, data: seq<byte>, peerClosed: bool)
    requires PrefixStable(env) && c.state.UntilClose?
    ensures var whole := AppendCapped(c.state.msg, data, c.state.cap);
      Drive(env, c, data).done == []
      && Ended(Drive(env, c, data), peerClosed) == Some(if peerClosed then whole else CutOff(whole))
  {
    hide PrefixStable, Drive, AppendCapped;
    if data == [] {
      DriveWaits(env, c, data);
      NothingAppended(c.state.msg, c.state.cap);
    } else {
      DriveGoes(env, c, data);
      assert data[|data|..] == [];
      DriveWaits(env, MoveOne(env, c, data).next, []);
    }
  }

  // A chunked body cut short.

  ghost predicate StillData(env: Env, c: Conf, p: seq<byte>)
    requires PrefixStable(env)
  {
    var d := Drive(env, c, p);
    d.done == [] && d.conf.state.Chunked? && !d.conf.state.dec.Trailer?
  }

  lemma LineCutShort(env: Env, c: Conf, line: seq<byte>, n: nat)
    requires PrefixStable(env) && ReadingSize(c) && !HasCrlf(line) && n < |line| + 2
    ensures StillData(env, c, (line + CRLF)[..n])
  {
    hide PrefixStable;
    UnfinishedLine(line, n);
    DriveWaits(env, c, (line + CRLF)[..n]);
  }

  lemma DataCutShort(env: Env, c: Conf, data: seq<byte>, n: nat)
    requires PrefixStable(env) && c.state.Chunked? && data != [] && c.state.dec == Data(|data|) && n < |data| + 2
    ensures StillData(env, c, (data + CRLF)[..n])
  {
    hide PrefixStable, Drive, AppendCapped;
    var p := (data + CRLF)[..n];
    if n == 0 {
      DriveWaits(env, c, p);
    } else if n < |data| {
      DriveGoes(env, c, p);
      assert p[|p|..] == [];
      DriveWaits(env, MoveOne(env, c, p).next, []);
    } else {
      assert p == data + CRLF[..n - |data|];
      DataRead(env, c, |data|, data, CRLF[..n - |data|]);
      DriveWaits(env, At(c, AppendCapped(c.state.msg, data, c.state.cap), DataCrlf), CRLF[..n - |data|]);
    }
  }

  lemma ChunkCutShort(env: Env, c: Conf, k: Chunk, n: nat)
    requires PrefixStable(env) && ReadingSize(c) && ChunkOk(k) && n < |ChunkWire(k)|
    ensures StillData(env, c, ChunkWire(k)[..n])
  {
    hide PrefixStable, Drive, ChunkSize;
    var head := k.line + CRLF;
    if n < |head| {
      assert ChunkWire(k)[..n] == head[..n];
      LineCutShort(env, c, k.line, n);
    } else {
      assert ChunkWire(k)[..n] == head + (k.data + CRLF)[..n - |head|];
      SizeLineRead(env, c, k.line, |k.data|, (k.data + CRLF)[..n - |head|]);
      DataCutShort(env, InChunked(c, Data(|k.data|)), k.data, n - |head|);
    }
  }

  lemma {:induction false} DataWireCutShort(env: Env, c: Conf, b: ChunkedBytes, n: nat)
    requires PrefixStable(env) && ReadingSize(c) && BytesOk(b) && n < |DataWire(b)|
    ensures StillData(env, c, DataWire(b)[..n])
    decreases |b.chunks|
  {
    hide PrefixStable, Drive, ChunkOk, ChunkWire, SizeLine, TrailerOk, AppendCapped, StillData;
    var ks := b.chunks;
    if ks == [] {
      assert DataWire(b) == b.last + CRLF;
      assert !HasCrlf(b.last) by {
        LastHasNoCrlf(b);
      }
      LineCutShort(env, c, b.last, n);
    } else {
      var first, more := ChunkWire(ks[0]), b.(chunks := ks[1..]);
      Assoc(first, ChunksWire(ks[1..]), b.last + CRLF);
      assert DataWire(b) == first + DataWire(more);
      if n < |first| {
        assert DataWire(b)[..n] == first[..n];
        ChunkCutShort(env, c, ks[0], n);
      } else {
        var next := At(c, AppendCapped(c.state.msg, ks[0].data, c.state.cap), Size);
        assert DataWire(b)[..n] == first + DataWire(more)[..n - |first|];
        OneChunkRead(env, c, ks[0], DataWire(more)[..n - |first|]);
        DataWireCutShort(env, next, more, n - |first|);
        SameDrive(env, c, DataWire(b)[..n], next, DataWire(more)[..n - |first|]);
      }
    }
  }

  lemma LastHasNoCrlf(b: ChunkedBytes)
    requires BytesOk(b)
    ensures !HasCrlf(b.last)
  {
  }

  lemma SameDrive(env: Env, c: Conf, p: seq<byte>, c2: Conf, p2: seq<byte>)
    requires PrefixStable(env) && Drive(env, c, p) == Drive(env, c2, p2) && StillData(env, c2, p2)
    ensures StillData(env, c, p)
  {
  }

  lemma {:induction false} TrailersCutShort(env: Env, c: Conf, ts: seq<seq<byte>>, n: nat)
    requires PrefixStable(env) && c.state.Chunked? && c.state.dec.Trailer?
    requires (forall t :: t in ts ==> TrailerOk(t)) && n < |TrailersWire(ts)|
    ensures Drive(env, c, TrailersWire(ts)[..n]).done == [] && Drive(env, c, TrailersWire(ts)[..n]).conf == c
    decreases |ts|
  {
    hide PrefixStable, Drive;
    var line := if ts == [] then [] else ts[0];
    var p := TrailersWire(ts)[..n];
    assert ts != [] ==> TrailerOk(ts[0]);
    if n < |line| + 2 {
      assert p == (line + CRLF)[..n];
      UnfinishedLine(line, n);
      DriveWaits(env, c, p);
    } else {
      var tail := TrailersWire(ts[1..])[..n - |line| - 2];
      assert p == line + CRLF + tail;
      LineEnds(line, tail);
      assert p[|line| + 2..] == tail;
      DriveGoes(env, c, p);
      TrailersCutShort(env, c, ts[1..], n - |line| - 2);
    }
  }

  /** A chunked body cut short anywhere: what ending the stream hands over is incomplete exactly when
      the line of the last chunk had not arrived. Past it only trailers can be missing, and the
      message is whole. */
  lemma ChunkedEnding(env: Env, c: Conf, b: ChunkedBytes, n: nat, peerClosed: bool)
    requires PrefixStable(env) && ReadingSize(c) && BytesOk(b) && n < |Wire(b)|
    requires !c.state.msg.incomplete
    ensures var d := Drive(env, c, Wire(b)[..n]);
      && d.done == [] && Ended(d, peerClosed).Some?
      && (Ended(d, peerClosed).value.incomplete <==> n < |DataWire(b)|)
      && (n >= |DataWire(b)| ==>
            Ended(d, peerClosed).value == AppendCapped(c.state.msg, Payload(b.chunks), c.state.cap))
  {
    hide PrefixStable, Drive, DataWire, TrailersWire, AppendCapped, Payload, BytesOk;
    var data, p := DataWire(b), Wire(b)[..n];
    if n < |data| {
      assert p == data[..n];
      DataWireCutShort(env, c, b, n);
    } else {
      var msg := AppendCapped(c.state.msg, Payload(b.chunks), c.state.cap);
      assert p == data + TrailersWire(b.trailers)[..n - |data|];
      DataWireRead(env, c, b, TrailersWire(b.trailers)[..n - |data|]);
      TrailersAreOk(b);
      TrailersCutShort(env, At(c, msg, Trailer), b.trailers, n - |data|);
      AppendKeepsIncomplete(c.state.msg, Payload(b.chunks), c.state.cap);
    }
  }

  lemma TrailersAreOk(b: ChunkedBytes)
    requires BytesOk(b)
    ensures forall t :: t in b.trailers ==> TrailerOk(t)
  {
  }

  lemma AppendKeepsIncomplete(msg: Message, data: seq<byte>, cap: nat)
    ensures AppendCapped(msg, data, cap).incomplete == msg.incomplete
  {
  }
}
