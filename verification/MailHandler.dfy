/** scripts/dev-verification-mail.py, `Handler.handle`, as the source runs it: loops over a
    buffered stream and a call to the shared mailbox. */
module MailHandler {
  import opened Wrappers
  import opened Bytes
  import opened MailSession
  import opened Mailbox

  /** `rfile`: the bytes not yet read. */
  class Stream {
    var rest: seq<byte>

    constructor (input: seq<byte>)
      ensures rest == input
    {
      rest := input;
    }

    /** readline(1025) */
    method Line() returns (line: seq<byte>)
      modifies this
      ensures (line, rest) == ReadLine(old(rest))
    {
      var n := 0;
      while n < |rest| && n < READ_LIMIT && (n == 0 || rest[n - 1] != LF)
        invariant n <= |rest| && n <= READ_LIMIT
        invariant LineLength(rest, READ_LIMIT) == n + if n > 0 && rest[n - 1] == LF then 0 else LineLength(rest[n..], READ_LIMIT - n)
        decreases |rest| - n
      {
        assert rest[n..][1..] == rest[n + 1..];
        n := n + 1;
      }
      line := rest[..n];
      rest := rest[n..];
    }

    /** The inner loop, from DATA to the lone dot. */
    method Receive() returns (message: Option<seq<byte>>)
      modifies this
      ensures match ReadData(old(rest), [])
              case None => message.None?
              case Some((data, unread)) => message == Some(data) && rest == unread
    {
      var data: seq<byte> := [];
      while true
        invariant ReadData(old(rest), []) == ReadData(rest, data)
        decreases |rest|
      {
        hide LineLength;
        var piece := Line();
        if |piece| > 1024 || !EndsCrlf(piece) { return None; }
        if piece == END { return Some(data); }
        data := data + if [DOT, DOT] <= piece then piece[1..] else piece;
        if |data| > MAX_MESSAGE { return None; }
      }
    }
  }

  /** What one session does to the mailbox. */
  function Effect(b: Box, input: seq<byte>, now: real, name: Uuid, fault: Fault): (Box, Saved) {
    match Message(input)
    case None => (b, Raised)
    case Some(m) => Deliver(b, Request(now, name, m, fault))
  }

  /** After some reads: the session's replies are those sent, then those of the rest. */
  ghost predicate Sent(input: seq<byte>, saved: Saved, replies: seq<Reply>, rest: seq<byte>, state: nat, turns: nat) {
    Handle(input, saved).replies == replies + Commands(rest, state, turns, saved).replies
  }

  /** Before any message: so for whatever the mailbox would answer, and the message is still to come. */
  ghost predicate Open(input: seq<byte>, replies: seq<Reply>, rest: seq<byte>, state: nat, turns: nat) {
    && Sent(input, Accepted, replies, rest, state, turns)
    && Sent(input, Full, replies, rest, state, turns)
    && Sent(input, Raised, replies, rest, state, turns)
    && Message(input) == Commands(rest, state, turns, Accepted).message
  }

  lemma Append<T>(a: seq<T>, b: seq<T>, c: seq<T>)
    ensures a + (b + c) == a + b + c
    ensures a + [] == a
  {
  }

  /** One read of the command loop. */
  lemma Reads(input: seq<byte>, saved: Saved, replies: seq<Reply>, before: seq<byte>, state: nat, turns: nat)
    requires Sent(input, saved, replies, before, state, turns) && turns > 0
    ensures var (line, rest) := ReadLine(before);
      match Classify(line, state)
      case Drop => Handle(input, saved).replies == replies
      case Advance(reply) => Sent(input, saved, replies + [reply], rest, state + 1, turns - 1)
      case Quit => Handle(input, saved).replies == replies + [Closing]
      case Reject => Handle(input, saved).replies == replies + [InvalidSequence]
      case Receive =>
        match ReadData(rest, [])
        case None => Handle(input, saved).replies == replies + [MessageFollows]
        case Some((_, unread)) =>
          if saved.Raised? then Handle(input, saved).replies == replies + [MessageFollows]
          else Sent(input, saved, replies + [MessageFollows, if saved.Accepted? then StoredLocally else FixtureFull],
                    unread, 4, turns - 1)
  {
    hide ReadLine, ReadData, Upper, Handle, Classify;
    var (line, rest) := ReadLine(before);
    Append(replies, [], []);
    match Classify(line, state)
    case Advance(reply) => Append(replies, [reply], Commands(rest, state + 1, turns - 1, saved).replies);
    case Receive =>
      if ReadData(rest, []).Some? && !saved.Raised? {
        Append(replies, [MessageFollows, if saved.Accepted? then StoredLocally else FixtureFull],
               Commands(ReadData(rest, []).value.1, 4, turns - 1, saved).replies);
      }
    case _ =>
  }

  /** The same for an open session, with the message it has or still awaits. */
  lemma ReadsOpen(input: seq<byte>, replies: seq<Reply>, before: seq<byte>, state: nat, turns: nat)
    requires Open(input, replies, before, state, turns) && turns > 0
    ensures var (line, rest) := ReadLine(before);
      match Classify(line, state)
      case Drop => Message(input).None? && Handle(input, Raised).replies == replies
      case Advance(reply) => Open(input, replies + [reply], rest, state + 1, turns - 1)
      case Quit => Message(input).None? && Handle(input, Raised).replies == replies + [Closing]
      case Reject => Message(input).None? && Handle(input, Raised).replies == replies + [InvalidSequence]
      case Receive =>
        match ReadData(rest, [])
        case None => Message(input).None? && Handle(input, Raised).replies == replies + [MessageFollows]
        case Some((data, unread)) =>
          Message(input) == Some(data) && Handle(input, Raised).replies == replies + [MessageFollows] &&
          Sent(input, Accepted, replies + [MessageFollows, StoredLocally], unread, 4, turns - 1) &&
          Sent(input, Full, replies + [MessageFollows, FixtureFull], unread, 4, turns - 1)
  {
    hide ReadLine, ReadData, Upper, Handle, Classify, Sent;
    Reads(input, Accepted, replies, before, state, turns);
    Reads(input, Full, replies, before, state, turns);
    Reads(input, Raised, replies, before, state, turns);
  }

  /** The replies sent and the mailbox left behind are exactly those of the session the input
      bytes spell; without a complete message the mailbox is untouched. */
  method Serve(stream: Stream, fixture: Fixture, now: real, name: Uuid, fault: Fault) returns (replies: seq<Reply>)
    modifies stream, fixture
    ensures var effect := Effect(old(fixture.Contents()), old(stream.rest), now, name, fault);
      fixture.Contents() == effect.0 && replies == Handle(old(stream.rest), effect.1).replies
  {
    hide ReadLine, ReadData, Deliver, LineLength, Commands, Handle, Open, Sent, Classify;
    ghost var input, was := stream.rest, fixture.Contents();
    ghost var answer: Option<Saved> := None;
    replies := [Greeting];
    var state := 0;
    Begins(input);
    for turn := 0 to 8
      invariant answer.None? ==> state <= 3 && fixture.Contents() == was && Open(input, replies, stream.rest, state, 8 - turn)
      invariant answer.Some? ==> state == 4 && Message(input).Some? && Sent(input, answer.value, replies, stream.rest, 4, 8 - turn)
      invariant answer.Some? ==> (fixture.Contents(), answer.value) == Effect(was, input, now, name, fault)
    {
      VerbStates(state);
      ghost var before := stream.rest;
      if answer.None? { ReadsOpen(input, replies, before, state, 8 - turn); }
      else { Reads(input, answer.value, replies, before, state, 8 - turn); }
      var line := stream.Line();
      match Classify(line, state) {
        case Drop =>
          return;
        case Advance(reply) =>
          state := state + 1;
          replies := replies + [reply];
        case Receive =>
          ghost var sent := replies;
          replies := replies + [MessageFollows];
          var message := stream.Receive();
          if message.None? { return; }
          var saved := fixture.Save(Request(now, name, message.value, fault));
          answer := Some(saved);
          if saved.Raised? { return; }
          var reply := if saved.Accepted? then StoredLocally else FixtureFull;
          assert [MessageFollows] + [reply] == [MessageFollows, reply];
          Append(sent, [MessageFollows], [reply]);
          replies := replies + [reply];
          state := 4;
        case Quit =>
          replies := replies + [Closing];
          return;
        case Reject =>
          replies := replies + [InvalidSequence];
          return;
      }
    }
    OutOfReads(input, answer, replies, stream.rest, state);
  }

  lemma OutOfReads(input: seq<byte>, answer: Option<Saved>, replies: seq<Reply>, rest: seq<byte>, state: nat)
    requires answer.None? ==> Open(input, replies, rest, state, 0)
    requires answer.Some? ==> Sent(input, answer.value, replies, rest, state, 0)
    ensures answer.None? ==> Message(input).None? && Handle(input, Raised).replies == replies
    ensures answer.Some? ==> Handle(input, answer.value).replies == replies
  {
    Append(replies, [], []);
  }

  /** Only the first three states advance, and only the fourth receives. */
  lemma VerbStates(state: nat)
    ensures forall line :: Classify(line, state).Advance? ==> state <= 2
    ensures forall line :: Classify(line, state).Receive? ==> state == 3
  {
  }

  lemma Begins(input: seq<byte>)
    ensures Open(input, [Greeting], input, 0, 8)
  {
    hide Commands;
  }
}
