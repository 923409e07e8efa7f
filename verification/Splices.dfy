/** Replacing stretches of a text, and what replacement does when the stretches are in order and apart. */
module Splices {
  import opened Bytes

  /** The bytes `start..end` of a text, and what is written in their place. */
  datatype Edit = Edit(start: nat, end: nat, replacement: seq<byte>)

  /** Edits in text order, disjoint, between two positions. */
  predicate InOrder(edits: seq<Edit>, from: nat, to: nat)
    decreases |edits|
  {
    if edits == [] then from <= to
    else from <= edits[0].start <= edits[0].end && InOrder(edits[1..], edits[0].end, to)
  }

  lemma {:induction false} InOrderBounds(edits: seq<Edit>, from: nat, to: nat)
    requires InOrder(edits, from, to)
    ensures from <= to
    decreases |edits|
  {
    if edits != [] {
      InOrderBounds(edits[1..], edits[0].end, to);
    }
  }

  /** The bytes between two positions with each edit made. */
  function Splice(b: seq<byte>, edits: seq<Edit>, from: nat, to: nat): seq<byte>
    requires InOrder(edits, from, to) && to <= |b|
    decreases |edits|
  {
    if edits == [] then b[from..to]
    else
      InOrderBounds(edits[1..], edits[0].end, to);
      b[from..edits[0].start] + edits[0].replacement + Splice(b, edits[1..], edits[0].end, to)
  }

  lemma SpliceNothing(b: seq<byte>, from: nat, to: nat)
    requires from <= to <= |b|
    ensures InOrder([], from, to) && Splice(b, [], from, to) == b[from..to]
  {
  }

  lemma SpliceCons(b: seq<byte>, edits: seq<Edit>, from: nat, to: nat)
    requires edits != [] && InOrder(edits, from, to) && to <= |b|
    ensures edits[0].start <= |b| && InOrder(edits[1..], edits[0].end, to)
    ensures Splice(b, edits, from, to)
      == b[from..edits[0].start] + edits[0].replacement + Splice(b, edits[1..], edits[0].end, to)
  {
    InOrderBounds(edits[1..], edits[0].end, to);
  }

  lemma {:induction false} SpliceConcat(b: seq<byte>, one: seq<Edit>, two: seq<Edit>, from: nat, mid: nat, to: nat)
    requires InOrder(one, from, mid) && InOrder(two, mid, to) && to <= |b|
    ensures mid <= |b| && InOrder(one + two, from, to)
    ensures Splice(b, one + two, from, to) == Splice(b, one, from, mid) + Splice(b, two, mid, to)
    decreases |one|
  {
    InOrderBounds(two, mid, to);
    if one == [] {
      assert one + two == two;
      SpliceFrom(b, two, from, mid, to);
    } else {
      assert (one + two)[1..] == one[1..] + two;
      SpliceConcat(b, one[1..], two, one[0].end, mid, to);
      InOrderBounds(one[1..], one[0].end, mid);
      Assoc(b[from..one[0].start] + one[0].replacement, Splice(b, one[1..], one[0].end, mid), Splice(b, two, mid, to));
    }
  }

  lemma SpliceFrom(b: seq<byte>, edits: seq<Edit>, from: nat, mid: nat, to: nat)
    requires from <= mid && InOrder(edits, mid, to) && to <= |b|
    ensures mid <= to && InOrder(edits, from, to)
    ensures Splice(b, edits, from, to) == b[from..mid] + Splice(b, edits, mid, to)
  {
    InOrderBounds(edits, mid, to);
    if edits == [] {
      assert b[from..mid] + b[mid..to] == b[from..to];
    } else {
      InOrderBounds(edits[1..], edits[0].end, to);
      assert b[from..mid] + b[mid..edits[0].start] == b[from..edits[0].start];
      Assoc(b[from..mid], b[mid..edits[0].start], edits[0].replacement);
      Assoc(b[from..mid], b[mid..edits[0].start] + edits[0].replacement, Splice(b, edits[1..], edits[0].end, to));
    }
  }

  lemma SpliceOne(b: seq<byte>, edit: Edit, from: nat, to: nat)
    requires from <= edit.start <= edit.end <= to <= |b|
    ensures InOrder([edit], from, to)
    ensures Splice(b, [edit], from, to) == b[from..edit.start] + edit.replacement + b[edit.end..to]
  {
    assert [edit][1..] == [];
  }

  lemma SpliceAfterGap(b: seq<byte>, one: seq<Edit>, two: seq<Edit>, from: nat, at: nat, mid: nat, to: nat)
    requires from <= at && InOrder(one, at, mid) && InOrder(two, mid, to) && to <= |b|
    ensures at <= mid <= to && InOrder(one + two, from, to)
    ensures Splice(b, one + two, from, to) == b[from..at] + Splice(b, one, at, mid) + Splice(b, two, mid, to)
  {
    InOrderBounds(one, at, mid);
    InOrderBounds(two, mid, to);
    SpliceConcat(b, one, two, at, mid, to);
    SpliceFrom(b, one + two, from, at, to);
    Assoc(b[from..at], Splice(b, one, at, mid), Splice(b, two, mid, to));
  }
}
