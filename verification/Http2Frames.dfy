/** Carving HTTP/2 frames out of one direction's bytes (section 4.1 of RFC 9113). */
module Http2Frames {
  import opened Bytes

  datatype Frame = Frame(frameType: byte, flags: byte, streamId: nat, payload: seq<byte>)

  const HEADER_LEN := 9

  /** Wire length of the frame that starts `buf`, its nine header bytes included. */
  function FrameTotal(buf: seq<byte>): (n: nat)
    requires |buf| >= HEADER_LEN
    ensures n >= HEADER_LEN
  {
    HEADER_LEN + BigEndian(buf[..3])
  }

  predicate HasFrame(buf: seq<byte>) {
    |buf| >= HEADER_LEN && |buf| >= FrameTotal(buf)
  }

  function FirstFrame(buf: seq<byte>): Frame
    requires HasFrame(buf)
  {
    // The top bit of the stream identifier is reserved.
    Frame(buf[3], buf[4], BigEndian(buf[5..HEADER_LEN]) % 0x8000_0000, buf[HEADER_LEN..FrameTotal(buf)])
  }

  /** Every complete frame at the front of `buf`, in order. */
  function Frames(buf: seq<byte>): seq<Frame>
    decreases |buf|
  {
    if HasFrame(buf) then [FirstFrame(buf)] + Frames(buf[FrameTotal(buf)..]) else []
  }

  /** What is left once every complete frame has been carved. */
  function Residue(buf: seq<byte>): seq<byte>
    decreases |buf|
  {
    if HasFrame(buf) then Residue(buf[FrameTotal(buf)..]) else buf
  }

  /** The wire form of a frame, for stating that carving undoes it. */
  function EncodeFrame(f: Frame): seq<byte>
    requires WireSized(f)
  {
    ToBigEndian(|f.payload|, 3) + [f.frameType, f.flags] + ToBigEndian(f.streamId, 4) + f.payload
  }

  predicate WireSized(f: Frame) {
    |f.payload| < Pow256(3) && f.streamId < 0x8000_0000
  }

  function EncodeFrames(fs: seq<Frame>): seq<byte>
    requires forall f :: f in fs ==> WireSized(f)
  {
    if fs == [] then [] else EncodeFrame(fs[0]) + EncodeFrames(fs[1..])
  }

  lemma {:induction false} ResidueIsStuck(buf: seq<byte>)
    ensures !HasFrame(Residue(buf))
    ensures |Residue(buf)| <= |buf|
    decreases |buf|
  {
    if HasFrame(buf) {
      ResidueIsStuck(buf[FrameTotal(buf)..]);
    }
  }

  lemma HeaderIsStable(a: seq<byte>, b: seq<byte>)
    requires |a| >= HEADER_LEN
    ensures FrameTotal(a + b) == FrameTotal(a)
  {
    assert (a + b)[..3] == a[..3];
  }

  /** Cutting a read in two changes neither the frames nor what stays buffered. */
  lemma {:induction false} CarveSplit(a: seq<byte>, b: seq<byte>)
    ensures Frames(a + b) == Frames(a) + Frames(Residue(a) + b)
    ensures Residue(a + b) == Residue(Residue(a) + b)
    decreases |a|
  {
    if HasFrame(a) {
      var n := FrameTotal(a);
      HeaderIsStable(a, b);
      assert (a + b)[5..HEADER_LEN] == a[5..HEADER_LEN];
      assert (a + b)[HEADER_LEN..n] == a[HEADER_LEN..n];
      assert (a + b)[n..] == a[n..] + b;
      CarveSplit(a[n..], b);
      assert Frames(a + b) == [FirstFrame(a)] + (Frames(a[n..]) + Frames(Residue(a[n..]) + b));
    } else {
      assert Frames(a) == [] && Residue(a) == a;
      assert Frames(a) + Frames(a + b) == Frames(a + b);
    }
  }

  /** Carving one frame at `pos` moves the cursor over it and over nothing else. */
  lemma CarveAt(buf: seq<byte>, pos: nat)
    requires pos <= |buf| && HasFrame(buf[pos..])
    ensures pos + FrameTotal(buf[pos..]) <= |buf|
    ensures Frames(buf[pos..]) == [FirstFrame(buf[pos..])] + Frames(buf[pos + FrameTotal(buf[pos..])..])
    ensures Residue(buf[pos..]) == Residue(buf[pos + FrameTotal(buf[pos..])..])
  {
    assert buf[pos..][FrameTotal(buf[pos..])..] == buf[pos + FrameTotal(buf[pos..])..];
  }

  lemma NoFrame(buf: seq<byte>)
    requires !HasFrame(buf)
    ensures Frames(buf) == [] && Residue(buf) == buf
  {
  }

  /** Once a pending prefix completes, what remains lies wholly inside the new bytes. */
  lemma {:induction false} ResidueLiesInNewBytes(a: seq<byte>, b: seq<byte>)
    requires !HasFrame(a) && HasFrame(a + b)
    ensures |Residue(a + b)| <= |b|
  {
    var n := FrameTotal(a + b);
    assert n >= |a| by {
      if |a| >= HEADER_LEN {
        HeaderIsStable(a, b);
      }
    }
    ResidueIsStuck((a + b)[n..]);
  }

  lemma EncodedFrameIsFirst(f: Frame, rest: seq<byte>)
    requires WireSized(f)
    ensures HasFrame(EncodeFrame(f) + rest)
    ensures FrameTotal(EncodeFrame(f) + rest) == |EncodeFrame(f)|
    ensures FirstFrame(EncodeFrame(f) + rest) == f
  {
    var buf := EncodeFrame(f) + rest;
    BigEndianInverts(|f.payload|, 3);
    assert 0x8000_0000 < Pow256(4);
    BigEndianInverts(f.streamId, 4);
    assert buf[..3] == ToBigEndian(|f.payload|, 3);
    assert buf[5..HEADER_LEN] == ToBigEndian(f.streamId, 4);
    assert buf[HEADER_LEN..HEADER_LEN + |f.payload|] == f.payload;
  }

  lemma CarveOne(f: Frame, rest: seq<byte>)
    requires WireSized(f)
    ensures Frames(EncodeFrame(f) + rest) == [f] + Frames(rest)
    ensures Residue(EncodeFrame(f) + rest) == Residue(rest)
  {
    EncodedFrameIsFirst(f, rest);
    assert (EncodeFrame(f) + rest)[|EncodeFrame(f)|..] == rest;
  }

  /** Carving undoes encoding, whatever partial frame follows. */
  lemma {:induction false} CarveInvertsEncode(fs: seq<Frame>, rest: seq<byte>)
    requires forall f :: f in fs ==> WireSized(f)
    ensures Frames(EncodeFrames(fs) + rest) == fs + Frames(rest)
    ensures Residue(EncodeFrames(fs) + rest) == Residue(rest)
  {
    if fs == [] {
      assert EncodeFrames(fs) + rest == rest;
    } else {
      var f, more := fs[0], fs[1..];
      CarveInvertsEncode(more, rest);
      CarveOne(f, EncodeFrames(more) + rest);
      Assoc(EncodeFrame(f), EncodeFrames(more), rest);
      Assoc([f], more, Frames(rest));
      assert [f] + more == fs;
    }
  }

  /** Accumulates one direction's bytes and carves out the frames they complete. */
  class Http2FrameDecoder {
    var buf: seq<byte>
    /** Bytes before it belong to frames already carved. */
    var pos: nat
    /** Bytes copied into `buf` or relocated inside it. */
    var moved: nat

    ghost predicate Valid()
      reads this
    {
      pos == 0 && !HasFrame(buf)
    }

    constructor ()
      ensures Valid() && buf == [] && moved == 0
    {
      buf, pos, moved := [], 0, 0;
    }

    /** Each call moves at most twice the bytes it was given, so any sequence of calls does too. */
    method Feed(data: seq<byte>) returns (out: seq<Frame>)
      requires Valid()
      modifies this
      ensures Valid()
      ensures out == Frames(old(buf) + data)
      ensures buf == Residue(old(buf) + data)
      ensures old(moved) + |data| <= moved <= old(moved) + 2 * |data|
    {
      hide Frames, Residue, HasFrame, FrameTotal, FirstFrame;
      buf := buf + data;
      moved := moved + |data|;
      out := CarveAll();
      if pos > 0 {
        ResidueLiesInNewBytes(old(buf), data);
      }
      Compact();
    }

    /** Moves the cursor over every complete frame. */
    method CarveAll() returns (out: seq<Frame>)
      requires pos == 0
      modifies this`pos
      ensures pos <= |buf| && !HasFrame(buf[pos..])
      ensures out == Frames(buf) && buf[pos..] == Residue(buf)
      ensures pos > 0 ==> HasFrame(buf)
    {
      hide Frames, Residue, FirstFrame, BigEndian;
      out := [];
      assert buf[0..] == buf && [] + Frames(buf) == Frames(buf);
      while HasFrame(buf[pos..])
        invariant pos <= |buf|
        invariant Frames(buf) == out + Frames(buf[pos..])
        invariant Residue(buf) == Residue(buf[pos..])
        invariant pos > 0 ==> HasFrame(buf)
        decreases |buf| - pos
      {
        CarveAt(buf, pos);
        var frame, next := FirstFrame(buf[pos..]), pos + FrameTotal(buf[pos..]);
        Assoc(out, [frame], Frames(buf[next..]));
        out, pos := out + [frame], next;
      }
      NoFrame(buf[pos..]);
      assert out + [] == out;
    }

    /** Drops the consumed prefix. */
    method Compact()
      requires pos <= |buf|
      modifies this
      ensures pos == 0 && buf == old(buf[pos..])
      ensures moved == old(moved) + (if old(pos) == 0 then 0 else |buf|)
    {
      if pos == 0 {
        return;
      }
      if pos >= |buf| {
        buf := [];
      } else {
        moved := moved + (|buf| - pos);
        buf := buf[pos..];
      }
      pos := 0;
    }

    /** Forgets what is buffered: the connection latched off. */
    method Release()
      modifies this
      ensures Valid() && buf == [] && moved == old(moved)
    {
      buf, pos := [], 0;
    }
  }
}
