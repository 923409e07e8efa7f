/** What the request being answered says about a response (rules 1 and 2 in section 6.3 of RFC 9112). */
module Http1Answers {
  import opened Bytes
  import opened Options
  import opened Http1Message
  import opened Http1Machine

  /** A header block that parses, alone and no less, to a response of the given class. */
  ghost predicate Responds(env: Env, head: seq<byte>, low: nat, high: nat) {
    var h := env.parseHead(head);
    && HeadOk(env, head)
    && !h.msg.isRequest && h.msg.status.Some? && low <= h.msg.status.value < high
  }

  /** Interim responses, one after the other. */
  ghost predicate Interims(env: Env, heads: seq<seq<byte>>) {
    heads == [] || (Responds(env, heads[0], 100, 200) && Interims(env, heads[1..]))
  }

  ghost function HeadsOf(env: Env, heads: seq<seq<byte>>): seq<Message>
    requires Interims(env, heads)
  {
    if heads == [] then [] else [HeadOf(env, heads[0])] + HeadsOf(env, heads[1..])
  }

  lemma HeadMoves(env: Env, answering: Answering, head: seq<byte>, rest: seq<byte>)
    requires PrefixStable(env) && Responds(env, head, 100, 1000)
    ensures var (next, done) := AfterHead(env, answering, HeadOf(env, head));
      Drive(env, Conf(Headers, answering), head + rest)
        == Then(Driven(next, [], done), Drive(env, next, rest))
  {
    hide Drive, AfterHead;
    assert StableAt(env, head, rest);
    assert (head + rest)[|head|..] == rest;
    DriveGoes(env, Conf(Headers, answering), head + rest);
  }

  /** However many interim responses come first, each is a message of its own and leaves the slot as it was. */
  lemma {:induction false} InterimsKeepTheSlot(env: Env, answering: Answering, heads: seq<seq<byte>>, rest: seq<byte>)
    requires PrefixStable(env) && Interims(env, heads)
    ensures var c := Conf(Headers, answering);
      Drive(env, c, Flatten(heads) + rest) == Then(Driven(c, [], HeadsOf(env, heads)), Drive(env, c, rest))
    decreases |heads|
  {
    hide PrefixStable, Drive;
    if heads == [] {
      assert Flatten(heads) + rest == rest;
      var d := Drive(env, Conf(Headers, answering), rest);
      assert [] + d.done == d.done;
    } else {
      var tail := Flatten(heads[1..]) + rest;
      Assoc(heads[0], Flatten(heads[1..]), rest);
      HeadMoves(env, answering, heads[0], tail);
      InterimsKeepTheSlot(env, answering, heads[1..], rest);
      Assoc([HeadOf(env, heads[0])], HeadsOf(env, heads[1..]), Drive(env, Conf(Headers, answering), rest).done);
    }
  }

  /** The final response to HEAD has no body, whatever its headers declare: what follows it is the next
      message, which the slot says nothing about. */
  lemma HeadAnswerHasNoBody(env: Env, heads: seq<seq<byte>>, final: seq<byte>, rest: seq<byte>)
    requires PrefixStable(env) && Interims(env, heads)
    requires Responds(env, final, 200, 1000)
    ensures Drive(env, Conf(Headers, Head), Flatten(heads) + (final + rest))
      == Then(Driven(Conf(Headers, Other), [], HeadsOf(env, heads) + [HeadOf(env, final)]),
              Drive(env, Conf(Headers, Other), rest))
    ensures HeadOf(env, final).body == []
  {
    FinalAnswer(env, Head, heads, final, rest);
  }

  /** After a 2xx to CONNECT nothing is HTTP: no later byte makes a message or is kept. */
  lemma ConnectOpensATunnel(env: Env, heads: seq<seq<byte>>, final: seq<byte>, rest: seq<byte>)
    requires PrefixStable(env) && Interims(env, heads)
    requires Responds(env, final, 200, 300)
    ensures Drive(env, Conf(Headers, Connect), Flatten(heads) + (final + rest))
      == Driven(Conf(Tunnel, Other), [], HeadsOf(env, heads) + [HeadOf(env, final)])
  {
    FinalAnswer(env, Connect, heads, final, rest);
    TunnelSwallows(env, rest);
    var all := HeadsOf(env, heads) + [HeadOf(env, final)];
    assert all + [] == all;
  }

  /** An error answer to CONNECT is framed by its own headers, and uses the slot up. */
  lemma RefusedConnectIsFramed(env: Env, heads: seq<seq<byte>>, final: seq<byte>, rest: seq<byte>)
    requires PrefixStable(env) && Interims(env, heads)
    requires Responds(env, final, 300, 1000) && HeadOf(env, final).status != Some(304)
    ensures var (next, done) := Framed(env, Other, HeadOf(env, final));
      Drive(env, Conf(Headers, Connect), Flatten(heads) + (final + rest))
        == Then(Driven(next, [], HeadsOf(env, heads) + done), Drive(env, next, rest))
  {
    FinalAnswer(env, Connect, heads, final, rest);
  }

  lemma FinalAnswer(env: Env, answering: Answering, heads: seq<seq<byte>>, final: seq<byte>, rest: seq<byte>)
    requires PrefixStable(env) && Interims(env, heads)
    requires Responds(env, final, 200, 1000)
    ensures var (next, done) := AfterHead(env, answering, HeadOf(env, final));
      Drive(env, Conf(Headers, answering), Flatten(heads) + (final + rest))
        == Then(Driven(next, [], HeadsOf(env, heads) + done), Drive(env, next, rest))
  {
    hide PrefixStable, Drive, AfterHead;
    InterimsKeepTheSlot(env, answering, heads, final + rest);
    HeadMoves(env, answering, final, rest);
    var (next, done) := AfterHead(env, answering, HeadOf(env, final));
    Assoc(HeadsOf(env, heads), done, Drive(env, next, rest).done);
  }

  lemma TunnelSwallows(env: Env, rest: seq<byte>)
    requires PrefixStable(env)
    ensures Drive(env, Conf(Tunnel, Other), rest) == Driven(Conf(Tunnel, Other), [], [])
  {
    hide PrefixStable, Drive;
    var c := Conf(Tunnel, Other);
    DriveWaits(env, c, []);
    if rest != [] {
      DriveGoes(env, c, rest);
      assert rest[|rest|..] == [];
    }
  }
}
