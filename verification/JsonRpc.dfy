/** Newline-delimited JSON-RPC: lines carved out of one direction of a pipe, and the two caps on them. */
module JsonRpc {
  import opened Bytes

  const LF: byte := 10
  const CR: byte := 13

  /** Where the first newline of `buf` is, or its length when there is none. */
  function Newline(buf: seq<byte>): (n: nat)
    ensures n <= |buf|
  {
    if buf == [] || buf[0] == LF then 0 else 1 + Newline(buf[1..])
  }

  lemma {:induction false} NewlineIsFirst(buf: seq<byte>)
    ensures Newline(buf) < |buf| ==> buf[Newline(buf)] == LF
    ensures LF !in buf[..Newline(buf)]
  {
    if buf != [] && buf[0] != LF {
      var n := Newline(buf);
      NewlineIsFirst(buf[1..]);
      assert buf[..n] == [buf[0]] + buf[1..][..n - 1];
    }
  }

  predicate HasLine(buf: seq<byte>) {
    Newline(buf) < |buf|
  }

  function FirstLine(buf: seq<byte>): seq<byte>
    requires HasLine(buf)
  {
    buf[..Newline(buf)]
  }

  function AfterLine(buf: seq<byte>): (rest: seq<byte>)
    requires HasLine(buf)
    ensures |rest| < |buf|
  {
    buf[Newline(buf) + 1..]
  }

  /** What became of one complete line. */
  datatype Reading = Parsed(line: seq<byte>) | OverCap | Blank

  function WithoutCr(line: seq<byte>): seq<byte> {
    if line != [] && line[|line| - 1] == CR then line[..|line| - 1] else line
  }

  /** The cap counts neither the newline nor a carriage return before it. */
  function ReadLine(line: seq<byte>, cap: nat): Reading {
    var l := WithoutCr(line);
    if l == [] then Blank else if |l| > cap then OverCap else Parsed(l)
  }

  function Readings(buf: seq<byte>, cap: nat): seq<Reading>
    decreases |buf|
  {
    if HasLine(buf) then [ReadLine(FirstLine(buf), cap)] + Readings(AfterLine(buf), cap) else []
  }

  function Residue(buf: seq<byte>): seq<byte>
    decreases |buf|
  {
    if HasLine(buf) then Residue(AfterLine(buf)) else buf
  }

  /** The messages the lines hold; `parse` is one line's, and may find none. */
  function Messages<M>(parse: seq<byte> -> seq<M>, rs: seq<Reading>): seq<M> {
    if rs == [] then []
    else (if rs[0].Parsed? then parse(rs[0].line) else []) + Messages(parse, rs[1..])
  }

  function LinesOver(rs: seq<Reading>): nat {
    if rs == [] then 0 else (if rs[0].OverCap? then 1 else 0) + LinesOver(rs[1..])
  }

  // ----- Carving does not see the cuts -----

  lemma {:induction false} NewlineSkips(buf: seq<byte>, k: nat)
    requires k <= |buf| && LF !in buf[..k]
    ensures Newline(buf) == k + Newline(buf[k..])
  {
    if k > 0 {
      assert buf[0] == buf[..k][0];
      assert buf[1..][..k - 1] == buf[..k][1..];
      NewlineSkips(buf[1..], k - 1);
      assert buf[1..][k - 1..] == buf[k..];
    } else {
      assert buf[0..] == buf;
    }
  }

  lemma FirstLineIsStable(a: seq<byte>, b: seq<byte>)
    requires HasLine(a)
    ensures HasLine(a + b)
    ensures FirstLine(a + b) == FirstLine(a) && AfterLine(a + b) == AfterLine(a) + b
  {
    var n := Newline(a);
    NewlineIsFirst(a);
    assert (a + b)[..n] == a[..n];
    NewlineSkips(a + b, n);
    assert (a + b)[n..][0] == LF;
  }

  lemma {:induction false} ReadingsSplit(a: seq<byte>, b: seq<byte>, cap: nat)
    ensures Readings(a + b, cap) == Readings(a, cap) + Readings(Residue(a) + b, cap)
    ensures Residue(a + b) == Residue(Residue(a) + b)
    decreases |a|
  {
    if HasLine(a) {
      FirstLineIsStable(a, b);
      ReadingsSplit(AfterLine(a), b, cap);
      Assoc([ReadLine(FirstLine(a), cap)], Readings(AfterLine(a), cap), Readings(Residue(a) + b, cap));
    } else {
      assert Readings(a, cap) + Readings(a + b, cap) == Readings(a + b, cap);
    }
  }

  lemma {:induction false} ResidueHasNoLine(buf: seq<byte>)
    ensures !HasLine(Residue(buf)) && |Residue(buf)| <= |buf|
    ensures LF !in Residue(buf)
    decreases |buf|
  {
    if HasLine(buf) {
      ResidueHasNoLine(AfterLine(buf));
    } else {
      NewlineIsFirst(buf);
      assert buf[..Newline(buf)] == buf;
    }
  }

  lemma NoLine(buf: seq<byte>)
    ensures HasLine(buf) <==> LF in buf
  {
    NewlineIsFirst(buf);
    if !HasLine(buf) {
      assert buf[..Newline(buf)] == buf;
    }
  }

  // ----- One direction of a pipe -----

  /** What is awaited, or the latch a line too long to hold set. */
  datatype Stream = Open(residue: seq<byte>) | Latched

  datatype Fed = Fed(stream: Stream, readings: seq<Reading>)

  predicate Sound(s: Stream, cap: nat) {
    s.Open? ==> LF !in s.residue && |s.residue| <= cap
  }

  function ReadBytes(s: Stream, data: seq<byte>, cap: nat): (r: Fed)
    ensures Sound(r.stream, cap)
  {
    match s
    case Latched => Fed(Latched, [])
    case Open(held) =>
      ResidueHasNoLine(held + data);
      var residue := Residue(held + data);
      Fed(if |residue| > cap then Latched else Open(residue), Readings(held + data, cap))
  }

  function FeedAll(s: Stream, pieces: seq<seq<byte>>, cap: nat): Fed
    decreases |pieces|
  {
    if pieces == [] then Fed(s, [])
    else
      var first := ReadBytes(s, pieces[0], cap);
      var rest := FeedAll(first.stream, pieces[1..], cap);
      Fed(rest.stream, first.readings + rest.readings)
  }

  lemma SplitFeed(s: Stream, a: seq<byte>, b: seq<byte>, cap: nat)
    requires s.Open? && |Residue(s.residue + a)| <= cap
    ensures ReadBytes(s, a + b, cap).stream == ReadBytes(ReadBytes(s, a, cap).stream, b, cap).stream
    ensures ReadBytes(s, a + b, cap).readings
      == ReadBytes(s, a, cap).readings + ReadBytes(ReadBytes(s, a, cap).stream, b, cap).readings
  {
    Assoc(s.residue, a, b);
    ReadingsSplit(s.residue + a, b, cap);
  }

  lemma LatchedHalfway(s: Stream, a: seq<byte>, b: seq<byte>, cap: nat)
    requires s.Open? && |Residue(s.residue + a)| > cap
    ensures ReadBytes(s, a, cap).stream == Latched
    ensures ReadBytes(s, a + b, cap).readings
      == ReadBytes(s, a, cap).readings + Readings(Residue(s.residue + a) + b, cap)
    ensures LF in b <==> Readings(Residue(s.residue + a) + b, cap) != []
    ensures LF !in b ==> ReadBytes(s, a + b, cap).stream == Latched
  {
    var held := Residue(s.residue + a);
    Assoc(s.residue, a, b);
    ReadingsSplit(s.residue + a, b, cap);
    ResidueHasNoLine(s.residue + a);
    NoLine(held + b);
    assert forall i :: 0 <= i < |b| ==> (held + b)[|held| + i] == b[i];
  }

  /** Feeding piece by piece equals feeding at once exactly when no cut leaves an unterminated
      part above the cap with its newline still to come. */
  ghost predicate CutsAreHarmless(s: Stream, pieces: seq<seq<byte>>, cap: nat)
    decreases |pieces|
  {
    pieces == [] || s.Latched?
    || (|Residue(s.residue + pieces[0])| <= cap
      && CutsAreHarmless(ReadBytes(s, pieces[0], cap).stream, pieces[1..], cap))
    || LF !in Flatten(pieces[1..])
  }

  lemma {:induction false} LatchedStaysSilent(pieces: seq<seq<byte>>, cap: nat)
    ensures FeedAll(Latched, pieces, cap) == Fed(Latched, [])
    decreases |pieces|
  {
    if pieces != [] {
      LatchedStaysSilent(pieces[1..], cap);
    }
  }

  /** However the stream is cut, a reader gets a prefix of what one read would give it; it gets all
      of it, and ends in the same state, exactly when the cuts are harmless. */
  lemma {:induction false} CuttingOnlyLoses(s: Stream, pieces: seq<seq<byte>>, cap: nat)
    requires Sound(s, cap)
    ensures FeedAll(s, pieces, cap).readings <= ReadBytes(s, Flatten(pieces), cap).readings
    ensures FeedAll(s, pieces, cap) == ReadBytes(s, Flatten(pieces), cap) <==> CutsAreHarmless(s, pieces, cap)
    decreases |pieces|
  {
    if s.Latched? {
      LatchedStaysSilent(pieces, cap);
    } else if pieces == [] {
      NoLine(s.residue);
      assert s.residue + [] == s.residue;
    } else {
      var a, b := pieces[0], Flatten(pieces[1..]);
      var first := ReadBytes(s, a, cap);
      CuttingOnlyLoses(first.stream, pieces[1..], cap);
      if |Residue(s.residue + a)| <= cap {
        SplitFeed(s, a, b, cap);
        var later := ReadBytes(first.stream, b, cap);
        Extends(first.readings, FeedAll(first.stream, pieces[1..], cap).readings, later.readings);
        if LF !in b {
          NoNewlineIsHarmless(first.stream, pieces[1..], cap);
        }
      } else {
        LatchedHalfway(s, a, b, cap);
        LatchedStaysSilent(pieces[1..], cap);
        Extends(first.readings, [], Readings(Residue(s.residue + a) + b, cap));
      }
    }
  }

  lemma NoNewlineIsHarmless(s: Stream, pieces: seq<seq<byte>>, cap: nat)
    requires LF !in Flatten(pieces)
    ensures CutsAreHarmless(s, pieces, cap)
  {
    if pieces != [] {
      assert forall x :: x in Flatten(pieces[1..]) ==> x in Flatten(pieces);
    }
  }

  /** No line above the cap is ever parsed, and no blank one, however it arrived. */
  lemma {:induction false} ParsedLinesFit(buf: seq<byte>, cap: nat)
    ensures forall r :: r in Readings(buf, cap) && r.Parsed? ==> 0 < |r.line| <= cap && LF !in r.line
    decreases |buf|
  {
    if HasLine(buf) {
      ParsedLinesFit(AfterLine(buf), cap);
      NewlineIsFirst(buf);
      assert FirstLine(buf) == buf[..Newline(buf)];
    }
  }

  datatype Line = Line(text: seq<byte>, crlf: bool)

  predicate Printable(l: Line) {
    LF !in l.text && (!l.crlf && l.text != [] ==> l.text[|l.text| - 1] != CR)
  }

  /** The wire form of lines, each ended by a newline or by a carriage return and a newline. */
  function Print(lines: seq<Line>): seq<byte> {
    if lines == [] then []
    else (if lines[0].crlf then lines[0].text + [CR] else lines[0].text) + [LF] + Print(lines[1..])
  }

  /** What becomes of each line: blank, over the cap by its text alone, or parsed. */
  function Outcomes(lines: seq<Line>, cap: nat): seq<Reading> {
    if lines == [] then []
    else
      var text := lines[0].text;
      [if text == [] then Blank else if |text| > cap then OverCap else Parsed(text)] + Outcomes(lines[1..], cap)
  }

  /** Printed lines are read back, in order, each by its length, whatever unfinished line follows. */
  lemma {:induction false} ReadingsInvertPrint(lines: seq<Line>, rest: seq<byte>, cap: nat)
    requires forall l :: l in lines ==> Printable(l)
    requires LF !in rest
    ensures Readings(Print(lines) + rest, cap) == Outcomes(lines, cap)
    ensures Residue(Print(lines) + rest) == rest
  {
    hide Readings, Residue, ReadLine;
    if lines == [] {
      assert Print(lines) + rest == rest;
      NothingToCarve(rest, cap);
    } else {
      var l := lines[0];
      var raw := if l.crlf then l.text + [CR] else l.text;
      Assoc(raw + [LF], Print(lines[1..]), rest);
      PrintedLine(l, cap);
      LineThen(raw, Print(lines[1..]) + rest, cap);
      ReadingsInvertPrint(lines[1..], rest, cap);
    }
  }

  lemma PrintedLine(l: Line, cap: nat)
    requires Printable(l)
    ensures var raw := if l.crlf then l.text + [CR] else l.text;
      LF !in raw && ReadLine(raw, cap) ==
        if l.text == [] then Blank else if |l.text| > cap then OverCap else Parsed(l.text)
  {
    assert WithoutCr(l.text + [CR]) == l.text;
  }

  /** The lines longer than the cap are counted, and the messages are those of the others that are not blank. */
  lemma {:induction false} LinesAreCounted<M>(parse: seq<byte> -> seq<M>, lines: seq<Line>, cap: nat)
    ensures LinesOver(Outcomes(lines, cap)) == NumberOver(lines, cap)
    ensures Messages(parse, Outcomes(lines, cap)) == MessagesOf(parse, lines, cap)
  {
    if lines != [] {
      LinesAreCounted(parse, lines[1..], cap);
    }
  }

  function NumberOver(lines: seq<Line>, cap: nat): nat {
    if lines == [] then 0 else (if |lines[0].text| > cap then 1 else 0) + NumberOver(lines[1..], cap)
  }

  function MessagesOf<M>(parse: seq<byte> -> seq<M>, lines: seq<Line>, cap: nat): seq<M> {
    if lines == [] then []
    else
      (if 0 < |lines[0].text| <= cap then parse(lines[0].text) else []) + MessagesOf(parse, lines[1..], cap)
  }

  lemma LineThen(raw: seq<byte>, tail: seq<byte>, cap: nat)
    requires LF !in raw
    ensures Readings(raw + [LF] + tail, cap) == [ReadLine(raw, cap)] + Readings(tail, cap)
    ensures Residue(raw + [LF] + tail) == Residue(tail)
  {
    hide ReadLine;
    var buf := raw + [LF] + tail;
    assert buf[..|raw|] == raw && buf[|raw|..][0] == LF;
    NewlineSkips(buf, |raw|);
    assert AfterLine(buf) == tail;
  }

  /** A line that fills the cap exactly is read when it lands whole, and latches the stream off when a
      read ends between its carriage return and its newline: only the latter counts the former. */
  lemma CrAtTheCutLoses(line: seq<byte>, cap: nat)
    requires |line| == cap > 0 && LF !in line
    ensures ReadBytes(Open([]), line + [CR, LF], cap) == Fed(Open([]), [Parsed(line)])
    ensures FeedAll(Open([]), [line + [CR], [LF]], cap) == Fed(Latched, [])
  {
    hide Readings, Residue;
    var raw := line + [CR];
    assert [] + (line + [CR, LF]) == raw + [LF] + [] && [] + raw == raw;
    LineThen(raw, [], cap);
    NothingToCarve([], cap);
    assert WithoutCr(raw) == line;
    NothingToCarve(raw, cap);
    LatchedStaysSilent([raw, [LF]][1..], cap);
  }

  lemma {:induction false} MessagesConcat<M>(parse: seq<byte> -> seq<M>, a: seq<Reading>, b: seq<Reading>)
    ensures Messages(parse, a + b) == Messages(parse, a) + Messages(parse, b)
    ensures LinesOver(a + b) == LinesOver(a) + LinesOver(b)
  {
    if a == [] {
      assert a + b == b;
    } else {
      assert (a + b)[1..] == a[1..] + b;
      MessagesConcat(parse, a[1..], b);
      Assoc(if a[0].Parsed? then parse(a[0].line) else [], Messages(parse, a[1..]), Messages(parse, b));
    }
  }

  lemma ResidueLiesInNewBytes(a: seq<byte>, b: seq<byte>)
    requires LF !in a && HasLine(a + b)
    ensures |Residue(a + b)| <= |b|
  {
    assert (a + b)[..|a|] == a;
    NewlineSkips(a + b, |a|);
    ResidueHasNoLine(AfterLine(a + b));
  }

  /** Nothing between the cursor and the place where the search resumes is a newline. */
  predicate Searched(buf: seq<byte>, pos: nat, scan: nat) {
    pos <= scan <= |buf| && LF !in buf[pos..scan]
  }

  lemma SearchedBefore(held: seq<byte>, data: seq<byte>)
    requires LF !in held
    ensures Searched(held + data, 0, |held|)
  {
    assert (held + data)[0..|held|] == held;
  }

  lemma NewlineFrom(buf: seq<byte>, pos: nat, scan: nat)
    requires Searched(buf, pos, scan)
    ensures pos + Newline(buf[pos..]) == scan + Newline(buf[scan..])
  {
    assert buf[pos..][..scan - pos] == buf[pos..scan];
    assert buf[pos..][scan - pos..] == buf[scan..];
    NewlineSkips(buf[pos..], scan - pos);
  }

  /** The lines of `all` before `pos` gave `seen`, and what follows gives the rest. */
  predicate Carved(all: seq<byte>, pos: nat, seen: seq<Reading>, cap: nat) {
    && pos <= |all|
    && Readings(all, cap) == seen + Readings(all[pos..], cap)
    && Residue(all) == Residue(all[pos..])
    && (pos > 0 ==> HasLine(all))
  }

  lemma NothingCarved(all: seq<byte>, cap: nat)
    ensures Carved(all, 0, [], cap)
  {
    assert all[0..] == all;
  }

  lemma CarveLine(all: seq<byte>, pos: nat, seen: seq<Reading>, nl: nat, cap: nat)
    requires Carved(all, pos, seen, cap)
    requires nl < |all| && nl == pos + Newline(all[pos..])
    ensures Carved(all, nl + 1, seen + [ReadLine(all[pos..nl], cap)], cap)
  {
    hide ReadLine;
    assert FirstLine(all[pos..]) == all[pos..nl];
    assert AfterLine(all[pos..]) == all[nl + 1..];
    assert pos == 0 ==> all[pos..] == all;
    Assoc(seen, [ReadLine(all[pos..nl], cap)], Readings(all[nl + 1..], cap));
  }

  lemma AllCarved(all: seq<byte>, pos: nat, seen: seq<Reading>, cap: nat)
    requires Carved(all, pos, seen, cap)
    requires Newline(all[pos..]) == |all| - pos
    ensures Readings(all, cap) == seen && Residue(all) == all[pos..]
    ensures pos > 0 ==> HasLine(all)
  {
    assert seen + [] == seen;
  }

  lemma NothingToCarve(buf: seq<byte>, cap: nat)
    requires LF !in buf
    ensures Readings(buf, cap) == [] && Residue(buf) == buf
  {
    NoLine(buf);
  }

  lemma NothingSearched(buf: seq<byte>, k: nat)
    requires k <= |buf|
    ensures Searched(buf, k, k)
  {
  }

  /** Counting one more reading. */
  lemma OneMore<M>(parse: seq<byte> -> seq<M>, seen: seq<Reading>, r: Reading)
    ensures Messages(parse, seen + [r]) == Messages(parse, seen) + (if r.Parsed? then parse(r.line) else [])
    ensures LinesOver(seen + [r]) == LinesOver(seen) + (if r.OverCap? then 1 else 0)
  {
    MessagesConcat(parse, seen, [r]);
    assert [r][1..] == [];
  }

  /** The parser of one direction. */
  class JsonRpcStream<M> {
    const parse: seq<byte> -> seq<M>
    const cap: nat
    var buf: seq<byte>
    /** Bytes before it belong to lines already carved. */
    var pos: nat
    /** Where the next newline search starts. */
    var scan: nat
    var moved: nat
    var scanned: nat
    var linesOverCap: nat
    var disabled: bool

    ghost predicate Valid()
      reads this
    {
      pos == 0 && scan == |buf| && LF !in buf && |buf| <= cap && (disabled ==> buf == [])
    }

    ghost function State(): Stream
      reads this
    {
      if disabled then Latched else Open(buf)
    }

    constructor (parse: seq<byte> -> seq<M>, cap: nat)
      ensures Valid() && State() == Open([])
      ensures this.parse == parse && this.cap == cap
      ensures moved == scanned == linesOverCap == 0
    {
      this.parse, this.cap := parse, cap;
      buf, pos, scan, moved, scanned, linesOverCap, disabled := [], 0, 0, 0, 0, 0, false;
    }

    /** Each read moves at most twice its bytes and searches each of them once. */
    method Feed(data: seq<byte>) returns (out: seq<M>)
      requires Valid()
      modifies this
      ensures Valid()
      ensures State() == ReadBytes(old(State()), data, cap).stream
      ensures out == Messages(parse, ReadBytes(old(State()), data, cap).readings)
      ensures linesOverCap == old(linesOverCap) + LinesOver(ReadBytes(old(State()), data, cap).readings)
      ensures old(disabled) ==> moved == old(moved) && scanned == old(scanned)
      ensures !old(disabled) ==> old(moved) + |data| <= moved <= old(moved) + 2 * |data|
      ensures !old(disabled) ==> scanned == old(scanned) + |data|
    {
      assert Messages(parse, []) == [] && LinesOver([]) == 0;
      hide Readings, Residue, Messages, LinesOver, HasLine;
      out := [];
      if disabled {
        return;
      }
      SearchedBefore(buf, data);
      buf := buf + data;
      moved := moved + |data|;
      out := CarveLines();
      ResidueHasNoLine(buf);
      if pos > 0 {
        ResidueLiesInNewBytes(old(buf), data);
      }
      Compact();
      if |buf| - pos > cap {
        disabled, buf, pos, scan := true, [], 0, 0;
      }
    }

    /** Moves the cursor over every complete line, reading each. */
    method CarveLines() returns (out: seq<M>)
      requires pos == 0 && scan <= |buf| && Searched(buf, 0, scan)
      modifies this`pos, this`scan, this`scanned, this`linesOverCap
      ensures pos <= scan == |buf|
      ensures Residue(buf) == buf[pos..]
      ensures pos > 0 ==> HasLine(buf)
      ensures out == Messages(parse, Readings(buf, cap))
      ensures linesOverCap == old(linesOverCap) + LinesOver(Readings(buf, cap))
      ensures scanned == old(scanned) + |buf| - old(scan)
    {
      hide Readings, Residue, HasLine, Newline, ReadLine, Searched, Carved;
      NothingCarved(buf, cap);
      out := [];
      ghost var seen: seq<Reading> := [];
      while true
        invariant pos <= scan <= |buf|
        invariant Searched(buf, pos, scan)
        invariant Carved(buf, pos, seen, cap)
        invariant out == Messages(parse, seen)
        invariant linesOverCap == old(linesOverCap) + LinesOver(seen)
        invariant scanned == old(scanned) + scan - old(scan)
        decreases |buf| - scan
      {
        var offset := Newline(buf[scan..]);
        NewlineFrom(buf, pos, scan);
        if offset == |buf| - scan {
          AllCarved(buf, pos, seen, cap);
          scanned := scanned + offset;
          scan := |buf|;
          return;
        }
        scanned := scanned + offset + 1;
        var nl := scan + offset;
        var line := buf[pos..nl];
        CarveLine(buf, pos, seen, nl, cap);
        OneMore(parse, seen, ReadLine(line, cap));
        NothingSearched(buf, nl + 1);
        seen := seen + [ReadLine(line, cap)];
        pos := nl + 1;
        scan := pos;
        var found := TakeLine(line);
        out := out + found;
      }
    }

    /** Reads one complete line, or passes over it. */
    method TakeLine(raw: seq<byte>) returns (found: seq<M>)
      modifies this`linesOverCap
      ensures var r := ReadLine(raw, cap);
        && found == (if r.Parsed? then parse(r.line) else [])
        && linesOverCap == old(linesOverCap) + (if r.OverCap? then 1 else 0)
    {
      var line := raw;
      if line != [] && line[|line| - 1] == CR {
        line := line[..|line| - 1];
      }
      found := [];
      if line == [] {
        return;
      }
      if |line| > cap {
        linesOverCap := linesOverCap + 1;
        return;
      }
      found := parse(line);
    }

    /** Drops the consumed prefix. */
    method Compact()
      requires pos <= scan <= |buf|
      modifies this
      ensures pos == 0 && buf == old(buf[pos..]) && scan == old(scan - pos)
      ensures moved == old(moved) + (if old(pos) == 0 then 0 else |buf|)
      ensures scanned == old(scanned) && linesOverCap == old(linesOverCap) && disabled == old(disabled)
    {
      if pos == 0 {
        return;
      }
      if pos >= |buf| {
        buf := [];
      } else {
        moved := moved + (|buf| - pos);
        buf := buf[pos..];
      }
      scan := scan - pos;
      pos := 0;
    }
  }
}
