/** scripts/dev-verification-mail.py, `Handler.handle`: one SMTP session of the loopback
    fixture, from the bytes a client sends to the message handed to the mailbox. */
module MailSession {
  import opened Wrappers
  import opened Bytes

  const CR: byte := 13
  const LF: byte := 10
  const DOT: byte := 46
  const READ_LIMIT := 1025
  const MAX_MESSAGE := 8192
  const END: seq<byte> := [DOT, CR, LF]
  const EHLO: seq<byte> := [69, 72, 76, 79, 32]
  const MAIL: seq<byte> := [77, 65, 73, 76, 32, 70, 82, 79, 77, 58, 60]
  const RCPT: seq<byte> := [82, 67, 80, 84, 32, 84, 79, 58, 60]
  const DATA: seq<byte> := [68, 65, 84, 65, 13, 10]
  const QUIT: seq<byte> := [81, 85, 73, 84, 13, 10]

  // ----- Lines -----

  /** How many bytes `readline(limit)` takes: through the first LF, to the limit, or to the end. */
  function LineLength(s: seq<byte>, limit: nat): (n: nat)
    ensures n <= |s| && n <= limit
    ensures s != [] && limit > 0 ==> n > 0
  {
    if s == [] || limit == 0 then 0 else if s[0] == LF then 1 else 1 + LineLength(s[1..], limit - 1)
  }

  function ReadLine(s: seq<byte>): (r: (seq<byte>, seq<byte>))
    ensures r.0 + r.1 == s
  {
    var n := LineLength(s, READ_LIMIT);
    (s[..n], s[n..])
  }

  predicate EndsCrlf(line: seq<byte>) {
    |line| >= 2 && line[|line| - 2] == CR && line[|line| - 1] == LF
  }

  /** The two tests every line read must pass. */
  predicate Acceptable(line: seq<byte>) { |line| <= 1024 && EndsCrlf(line) }

  function Upper(line: seq<byte>): (u: seq<byte>)
    ensures |u| == |line|
  {
    seq(|line|, i requires 0 <= i < |line| => if 97 <= line[i] <= 122 then line[i] - 32 else line[i])
  }

  /** One CRLF line: it ends with CR LF and has no other LF. */
  ghost predicate IsLine(line: seq<byte>) {
    EndsCrlf(line) && forall i | 0 <= i < |line| - 1 :: line[i] != LF
  }

  lemma {:induction false} ReadLineTakesLine(line: seq<byte>, rest: seq<byte>, limit: nat)
    requires line != [] && line[|line| - 1] == LF && (forall i | 0 <= i < |line| - 1 :: line[i] != LF)
    ensures LineLength(line + rest, limit) == if |line| <= limit then |line| else limit
  {
    if limit != 0 && |line| > 1 {
      assert (line + rest)[1..] == line[1..] + rest;
      ReadLineTakesLine(line[1..], rest, limit - 1);
    }
  }

  lemma {:induction false} ReadLineHasNoInnerLf(s: seq<byte>, limit: nat)
    ensures forall i | 0 <= i < LineLength(s, limit) - 1 :: s[i] != LF
  {
    if s != [] && limit != 0 && s[0] != LF {
      ReadLineHasNoInnerLf(s[1..], limit - 1);
      forall i | 0 <= i < LineLength(s, limit) - 1 ensures s[i] != LF {
        if i > 0 { assert s[i] == s[1..][i - 1]; }
      }
    }
  }

  /** Accepted reads are exactly the CRLF lines of at most 1024 bytes. */
  lemma AcceptableIffLine(s: seq<byte>, line: seq<byte>, rest: seq<byte>)
    ensures ReadLine(s) == (line, rest) && Acceptable(line)
       <==> s == line + rest && IsLine(line) && |line| <= 1024
  {
    ReadLineHasNoInnerLf(s, READ_LIMIT);
    if s == line + rest && IsLine(line) && |line| <= 1024 {
      ReadLineTakesLine(line, rest, READ_LIMIT);
    }
  }

  // ----- The data phase -----

  function Unstuff(piece: seq<byte>): seq<byte> {
    if |piece| >= 2 && piece[0] == DOT && piece[1] == DOT then piece[1..] else piece
  }

  /** Receives lines after DATA until the lone dot: the message and the unread bytes. */
  function ReadData(s: seq<byte>, data: seq<byte>): Option<(seq<byte>, seq<byte>)>
    decreases |s|
  {
    var (piece, rest) := ReadLine(s);
    if !Acceptable(piece) then None
    else if piece == END then Some((data, rest))
    else if |data + Unstuff(piece)| > MAX_MESSAGE then None
    else ReadData(rest, data + Unstuff(piece))
  }

  // ----- The command phase -----

  datatype Saved = Accepted | Full | Raised

  datatype Reply =
    Greeting | Hello | SenderAccepted | RecipientAccepted | MessageFollows
    | StoredLocally | FixtureFull | Closing | InvalidSequence

  datatype Session = Session(replies: seq<Reply>, message: Option<seq<byte>>)

  function After(reply: Reply, s: Session): Session { s.(replies := [reply] + s.replies) }

  /** What the handler does with one line in a given state. */
  datatype Verb = Drop | Advance(reply: Reply) | Receive | Quit | Reject

  function Classify(line: seq<byte>, state: nat): Verb {
    if !Acceptable(line) then Drop
    else if state == 0 && EHLO <= Upper(line) then Advance(Hello)
    else if state == 1 && MAIL <= Upper(line) then Advance(SenderAccepted)
    else if state == 2 && RCPT <= Upper(line) then Advance(RecipientAccepted)
    else if state == 3 && Upper(line) == DATA then Receive
    else if Upper(line) == QUIT then Quit
    else Reject
  }

  /** The command loop with `turns` reads left. `saved` is what the mailbox answers, should a
      message reach it. */
  function Commands(s: seq<byte>, state: nat, turns: nat, saved: Saved): Session
    decreases turns, s
  {
    if turns == 0 then Session([], None)
    else
      var (line, rest) := ReadLine(s);
      match Classify(line, state)
      case Drop => Session([], None)
      case Advance(reply) => After(reply, Commands(rest, state + 1, turns - 1, saved))
      case Quit => Session([Closing], None)
      case Reject => Session([InvalidSequence], None)
      case Receive =>
        match ReadData(rest, [])
        case None => Session([MessageFollows], None)
        case Some((data, unread)) =>
          if saved.Raised? then Session([MessageFollows], Some(data))
          else
            var more := Commands(unread, 4, turns - 1, saved).replies;
            Session([MessageFollows, if saved.Accepted? then StoredLocally else FixtureFull] + more, Some(data))
  }

  function Handle(s: seq<byte>, saved: Saved): Session { After(Greeting, Commands(s, 0, 8, saved)) }

  /** The message of a session, which does not depend on the mailbox's answer. */
  function Message(s: seq<byte>): Option<seq<byte>> { Handle(s, Accepted).message }

  // ----- Which lines are which commands -----

  /** `c` is the letter or sign `upper`, or the letter in lower case. */
  predicate Same(c: byte, upper: char) {
    c == upper as int || ('A' <= upper <= 'Z' && c == upper as int + 32)
  }

  /** The line begins with `word`, in upper or lower case. */
  predicate Spells(line: seq<byte>, word: string) {
    |line| >= |word| && forall i | 0 <= i < |word| :: Same(line[i], word[i])
  }

  /** `bytes` are the characters of `word`, which has no lower-case letter. */
  predicate Encodes(bytes: seq<byte>, word: string) {
    |bytes| == |word| && forall i | 0 <= i < |word| :: bytes[i] == word[i] as int && !('a' <= word[i] <= 'z')
  }

  lemma UpperSpells(line: seq<byte>, bytes: seq<byte>, word: string)
    requires Encodes(bytes, word)
    ensures bytes <= Upper(line) <==> Spells(line, word)
    ensures Upper(line) == bytes <==> Spells(line, word) && |line| == |word|
  {
    var u := Upper(line);
    if |line| >= |word| {
      forall i | 0 <= i < |word| ensures u[i] == bytes[i] <==> Same(line[i], word[i]) {}
      assert bytes <= u <==> forall i | 0 <= i < |bytes| :: u[i] == bytes[i];
    }
  }

  lemma Verbs()
    ensures Encodes(EHLO, "EHLO ") && Encodes(MAIL, "MAIL FROM:<") && Encodes(RCPT, "RCPT TO:<")
    ensures Encodes(DATA, "DATA\r\n") && Encodes(QUIT, "QUIT\r\n")
  {
  }

  /** The line moves a session on from `state`: EHLO, MAIL FROM, RCPT TO and DATA, in this order
      and in any case. */
  predicate Expected(line: seq<byte>, state: nat) {
    || (state == 0 && Spells(line, "EHLO "))
    || (state == 1 && Spells(line, "MAIL FROM:<"))
    || (state == 2 && Spells(line, "RCPT TO:<"))
    || (state == 3 && |line| == 6 && Spells(line, "DATA\r\n"))
  }

  predicate Quits(line: seq<byte>) { |line| == 6 && Spells(line, "QUIT\r\n") }

  /** What the handler does with a line, for every line and state. */
  lemma ClassifyIs(line: seq<byte>, state: nat)
    ensures Classify(line, state) ==
      if !Acceptable(line) then Drop
      else if Expected(line, state) then
        if state == 0 then Advance(Hello) else if state == 1 then Advance(SenderAccepted)
        else if state == 2 then Advance(RecipientAccepted) else Receive
      else if Quits(line) then Quit else Reject
  {
    Verbs();
    UpperSpells(line, EHLO, "EHLO ");
    UpperSpells(line, MAIL, "MAIL FROM:<");
    UpperSpells(line, RCPT, "RCPT TO:<");
    UpperSpells(line, DATA, "DATA\r\n");
    UpperSpells(line, QUIT, "QUIT\r\n");
    hide Upper, Spells, Encodes;
  }

  // ----- What a stored message means -----

  /** The four lines that must open a session, in this order. */
  ghost predicate Opening(a: seq<byte>, b: seq<byte>, c: seq<byte>, d: seq<byte>) {
    && IsLine(a) && |a| <= 1024 && Expected(a, 0)
    && IsLine(b) && |b| <= 1024 && Expected(b, 1)
    && IsLine(c) && |c| <= 1024 && Expected(c, 2)
    && IsLine(d) && |d| <= 1024 && Expected(d, 3)
  }

  lemma AtData(s: seq<byte>, d: seq<byte>, rest: seq<byte>, turns: nat, saved: Saved)
    requires s == d + rest && IsLine(d) && |d| <= 1024 && Expected(d, 3) && turns > 0
    ensures Commands(s, 3, turns, saved).message
         == match ReadData(rest, []) { case None => None case Some((m, _)) => Some(m) }
  {
    AcceptableIffLine(s, d, rest);
    ClassifyIs(d, 3);
    hide Classify, ReadLine, ReadData;
  }

  lemma AdvanceStep(line: seq<byte>, rest: seq<byte>, state: nat, turns: nat, saved: Saved)
    requires IsLine(line) && |line| <= 1024 && state <= 2 && Expected(line, state) && turns > 0
    ensures Commands(line + rest, state, turns, saved).message == Commands(rest, state + 1, turns - 1, saved).message
  {
    AcceptableIffLine(line + rest, line, rest);
    ClassifyIs(line, state);
    hide Classify, ReadLine, Spells;
  }

  lemma OpeningMessage(a: seq<byte>, b: seq<byte>, c: seq<byte>, d: seq<byte>, rest: seq<byte>, saved: Saved)
    requires Opening(a, b, c, d)
    ensures Handle(a + (b + (c + (d + rest))), saved).message
         == match ReadData(rest, []) { case None => None case Some((m, _)) => Some(m) }
  {
    hide LineLength, ReadLine, ReadData, Commands;
    var s3 := d + rest;
    var s2 := c + s3;
    var s1 := b + s2;
    AdvanceStep(a, s1, 0, 8, saved);
    AdvanceStep(b, s2, 1, 7, saved);
    AdvanceStep(c, s3, 2, 6, saved);
    AtData(s3, d, rest, 5, saved);
  }

  /** From state 3 a message needs the DATA line first; from state 2 the RCPT line; and so on. */
  lemma StepNeedsLine(s: seq<byte>, state: nat, turns: nat, saved: Saved)
    requires state <= 3 && Commands(s, state, turns, saved).message.Some?
    ensures turns > 0 && var (line, rest) := ReadLine(s);
      s == line + rest && IsLine(line) && |line| <= 1024 &&
      Expected(line, state) &&
      if state < 3 then
        Commands(s, state, turns, saved).message == Commands(rest, state + 1, turns - 1, saved).message
      else
        ReadData(rest, []).Some? && Commands(s, state, turns, saved).message == Some(ReadData(rest, []).value.0)
  {
    var (line, rest) := ReadLine(s);
    AcceptableIffLine(s, line, rest);
    ClassifyIs(line, state);
    hide Classify, ReadLine, ReadData, Spells;
  }

  ghost predicate Opened(s: seq<byte>, a: seq<byte>, b: seq<byte>, c: seq<byte>, d: seq<byte>, rest: seq<byte>) {
    Opening(a, b, c, d) && s == a + (b + (c + (d + rest)))
  }

  lemma MessageNeedsOpening(s: seq<byte>, saved: Saved)
    returns (a: seq<byte>, b: seq<byte>, c: seq<byte>, d: seq<byte>, rest: seq<byte>)
    requires Handle(s, saved).message.Some?
    ensures Opened(s, a, b, c, d, rest) && ReadData(rest, []).Some?
    ensures Handle(s, saved).message == Some(ReadData(rest, []).value.0)
  {
    hide LineLength, ReadLine, ReadData, Commands, Upper;
    StepNeedsLine(s, 0, 8, saved);
    var s1, s2, s3;
    a, s1 := ReadLine(s).0, ReadLine(s).1;
    StepNeedsLine(s1, 1, 7, saved);
    b, s2 := ReadLine(s1).0, ReadLine(s1).1;
    StepNeedsLine(s2, 2, 6, saved);
    c, s3 := ReadLine(s2).0, ReadLine(s2).1;
    StepNeedsLine(s3, 3, 5, saved);
    d, rest := ReadLine(s3).0, ReadLine(s3).1;
  }

  /** A session hands over a message exactly when its bytes are EHLO, MAIL, RCPT and DATA lines
      in that order followed by a complete data phase; the message is what that phase received,
      whatever the mailbox answers. */
  lemma MessageIff(s: seq<byte>, saved: Saved, m: seq<byte>)
    ensures Handle(s, saved).message == Some(m) <==>
      exists a, b, c, d, rest :: Opened(s, a, b, c, d, rest) && ReadData(rest, []).Some? && ReadData(rest, []).value.0 == m
  {
    if Handle(s, saved).message == Some(m) {
      var a, b, c, d, rest := MessageNeedsOpening(s, saved);
      assert Opened(s, a, b, c, d, rest);
    }
    forall a, b, c, d, rest | Opened(s, a, b, c, d, rest) && ReadData(rest, []).Some? && ReadData(rest, []).value.0 == m
      ensures Handle(s, saved).message == Some(m)
    {
      OpeningMessage(a, b, c, d, rest, saved);
    }
  }

  lemma MessageIndependent(s: seq<byte>, saved: Saved)
    ensures Handle(s, saved).message == Message(s)
  {
    if Handle(s, saved).message.Some? {
      var m := Handle(s, saved).message.value;
      MessageIff(s, saved, m);
      MessageIff(s, Accepted, m);
    } else if Message(s).Some? {
      var m := Message(s).value;
      MessageIff(s, saved, m);
      MessageIff(s, Accepted, m);
    }
  }

  lemma {:induction false} DataBound(s: seq<byte>, data: seq<byte>)
    requires |data| <= MAX_MESSAGE
    ensures ReadData(s, data).Some? ==> |ReadData(s, data).value.0| <= MAX_MESSAGE
    decreases |s|
  {
    var (piece, rest) := ReadLine(s);
    if Acceptable(piece) && piece != END && |data + Unstuff(piece)| <= MAX_MESSAGE {
      DataBound(rest, data + Unstuff(piece));
    }
  }

  /** No input makes a session hand over more than 8192 bytes. */
  lemma MessageBound(s: seq<byte>)
    ensures Message(s).Some? ==> |Message(s).value| <= MAX_MESSAGE
  {
    if Message(s).Some? {
      var _, _, _, _, rest := MessageNeedsOpening(s, Accepted);
      DataBound(rest, []);
    }
  }

  /** The loop's bound of eight reads is never what ends a session: from each state, the
      remaining transitions and one closing read are enough. */
  lemma {:induction false} ReadsSuffice(s: seq<byte>, state: nat, turns: nat, more: nat, saved: Saved)
    requires state <= 4 && turns >= 5 - state && more >= turns
    ensures Commands(s, state, more, saved) == Commands(s, state, turns, saved)
    decreases turns
  {
    hide LineLength, ReadLine, ReadData, Upper, Acceptable;
    var (line, rest) := ReadLine(s);
    match Classify(line, state)
    case Advance(_) => ReadsSuffice(rest, state + 1, turns - 1, more - 1, saved);
    case Receive =>
      if ReadData(rest, []).Some? { ReadsSuffice(ReadData(rest, []).value.1, 4, turns - 1, more - 1, saved); }
    case _ =>
  }

  // ----- Dot stuffing -----

  /** What section 4.5.2 of RFC 5321 has a client do to each line. */
  function Stuff(line: seq<byte>): seq<byte> {
    if line != [] && line[0] == DOT then [DOT] + line else line
  }

  function Join(lines: seq<seq<byte>>): seq<byte> {
    if lines == [] then [] else lines[0] + Join(lines[1..])
  }

  function StuffAll(lines: seq<seq<byte>>): seq<seq<byte>> {
    if lines == [] then [] else [Stuff(lines[0])] + StuffAll(lines[1..])
  }

  predicate AllShort(lines: seq<seq<byte>>) {
    lines == [] || (|lines[0]| <= 1024 && AllShort(lines[1..]))
  }

  lemma StuffedLine(line: seq<byte>)
    requires IsLine(line)
    ensures IsLine(Stuff(line)) && Unstuff(Stuff(line)) == line && Stuff(line) != END
  {
    var t := Stuff(line);
    if line[0] == DOT {
      assert t[1..] == line;
      assert forall i | 0 < i < |t| - 1 :: t[i] == line[i - 1];
    }
  }

  lemma LongLineRejected(line: seq<byte>, rest: seq<byte>)
    requires IsLine(line) && |line| > 1024
    ensures !Acceptable(ReadLine(line + rest).0)
  {
    ReadLineTakesLine(line, rest, READ_LIMIT);
  }

  /** One stuffed line in the data phase. */
  lemma StuffedLineReceived(line: seq<byte>, tail: seq<byte>, data: seq<byte>)
    requires IsLine(line)
    ensures ReadData(Stuff(line) + tail, data)
         == if |Stuff(line)| > 1024 || |data| + |line| > MAX_MESSAGE then None else ReadData(tail, data + line)
  {
    StuffedLine(line);
    if |Stuff(line)| > 1024 {
      LongLineRejected(Stuff(line), tail);
    } else {
      AcceptableIffLine(Stuff(line) + tail, Stuff(line), tail);
    }
  }

  /** What the client sends after DATA, and what follows it. */
  function Wire(lines: seq<seq<byte>>, rest: seq<byte>): seq<byte> {
    Join(StuffAll(lines)) + (END + rest)
  }

  lemma WireStep(lines: seq<seq<byte>>, rest: seq<byte>)
    requires lines != []
    ensures Wire(lines, rest) == Stuff(lines[0]) + Wire(lines[1..], rest)
    ensures AllShort(StuffAll(lines)) <==> |Stuff(lines[0])| <= 1024 && AllShort(StuffAll(lines[1..]))
  {
    hide Stuff, Join, AllShort;
    var first, more := Stuff(lines[0]), StuffAll(lines[1..]);
    assert StuffAll(lines) == [first] + more;
    hide StuffAll;
    ConsLine(first, more);
    var end := END + rest;
    assert (first + Join(more)) + end == first + (Join(more) + end);
  }

  lemma ConsLine(first: seq<byte>, more: seq<seq<byte>>)
    ensures Join([first] + more) == first + Join(more)
    ensures AllShort([first] + more) <==> |first| <= 1024 && AllShort(more)
  {
    assert ([first] + more)[1..] == more;
  }

  lemma EndReceived(rest: seq<byte>, data: seq<byte>)
    ensures ReadData(Wire([], rest), data) == Some((data, rest))
  {
    var none: seq<seq<byte>> := [];
    assert Join(StuffAll(none)) == [];
    assert Wire(none, rest) == END + rest;
    AcceptableIffLine(END + rest, END, rest);
  }

  /** The data phase on a stuffed message, from any amount already received. */
  lemma {:induction false} StuffedReceived(lines: seq<seq<byte>>, rest: seq<byte>, data: seq<byte>)
    requires forall i | 0 <= i < |lines| :: IsLine(lines[i])
    requires |data| <= MAX_MESSAGE
    ensures ReadData(Wire(lines, rest), data)
         == if AllShort(StuffAll(lines)) && |data| + |Join(lines)| <= MAX_MESSAGE
            then Some((data + Join(lines), rest)) else None
    decreases |lines|
  {
    hide LineLength, ReadLine, ReadData, Stuff, Wire;
    if lines == [] {
      EndReceived(rest, data);
      assert data + Join(lines) == data;
    } else {
      WireStep(lines, rest);
      StuffedLineReceived(lines[0], Wire(lines[1..], rest), data);
      if |data| + |lines[0]| <= MAX_MESSAGE {
        StuffedReceived(lines[1..], rest, data + lines[0]);
        assert data + lines[0] + Join(lines[1..]) == data + Join(lines);
      }
    }
  }

  /** A dot-stuffed message is received as exactly its original bytes if every stuffed line is
      at most 1024 bytes and the message at most 8192; otherwise nothing is received. */
  lemma StuffedRoundTrip(lines: seq<seq<byte>>, rest: seq<byte>)
    requires forall i | 0 <= i < |lines| :: IsLine(lines[i])
    ensures ReadData(Wire(lines, rest), [])
         == if AllShort(StuffAll(lines)) && |Join(lines)| <= MAX_MESSAGE then Some((Join(lines), rest)) else None
  {
    StuffedReceived(lines, rest, []);
    assert [] + Join(lines) == Join(lines);
  }

  /** The whole exchange: a client that opens correctly and stuffs its lines has exactly its
      message handed to the mailbox, or nothing when a bound is passed. */
  lemma SessionDelivers(a: seq<byte>, b: seq<byte>, c: seq<byte>, d: seq<byte>, lines: seq<seq<byte>>, rest: seq<byte>)
    requires Opening(a, b, c, d) && forall i | 0 <= i < |lines| :: IsLine(lines[i])
    ensures Message(a + (b + (c + (d + Wire(lines, rest)))))
         == if AllShort(StuffAll(lines)) && |Join(lines)| <= MAX_MESSAGE then Some(Join(lines)) else None
  {
    StuffedRoundTrip(lines, rest);
    OpeningMessage(a, b, c, d, Wire(lines, rest), Accepted);
  }

  // ----- The data phase on any input -----

  /** Lines a data phase accepts before its end. */
  ghost predicate DataLines(lines: seq<seq<byte>>) {
    forall i | 0 <= i < |lines| :: IsLine(lines[i]) && |lines[i]| <= 1024 && lines[i] != [46, 13, 10]
  }

  /** Every line, without its first dot if it begins with two. */
  function Undotted(lines: seq<seq<byte>>): (r: seq<seq<byte>>)
    ensures |r| == |lines|
    ensures forall i | 0 <= i < |r| :: r[i] == if [46, 46] <= lines[i] then lines[i][1..] else lines[i]
  {
    seq(|lines|, i requires 0 <= i < |lines| => if [46, 46] <= lines[i] then lines[i][1..] else lines[i])
  }

  lemma UndottedFirst(line: seq<byte>, more: seq<seq<byte>>)
    ensures Undotted([line] + more) == [Unstuff(line)] + Undotted(more)
    ensures Join(Undotted([line] + more)) == Unstuff(line) + Join(Undotted(more))
    ensures Join([line] + more) == line + Join(more)
  {
    var u := [Unstuff(line)] + Undotted(more);
    assert [46, 46] <= line <==> |line| >= 2 && line[0] == DOT && line[1] == DOT;
    assert forall i | 0 < i < |more| + 1 :: ([line] + more)[i] == more[i - 1];
    assert Undotted([line] + more) == u;
    assert u[1..] == Undotted(more) && ([line] + more)[1..] == more;
    hide Undotted;
  }

  lemma {:induction false} DataSeen(s: seq<byte>, data: seq<byte>) returns (lines: seq<seq<byte>>)
    requires ReadData(s, data).Some?
    ensures var (m, rest) := ReadData(s, data).value;
      DataLines(lines) && s == Join(lines) + (END + rest) && m == data + Join(Undotted(lines)) && (lines == [] || |m| <= MAX_MESSAGE)
    decreases |s|
  {
    hide LineLength, IsLine, ReadLine, Join, Undotted, DataLines;
    var (line, rest) := ReadLine(s);
    AcceptableIffLine(s, line, rest);
    JoinNothing();
    if line == END {
      lines := [];
      assert data + [] == data;
      assert [] + (END + rest) == s;
    } else {
      var more := DataSeen(rest, data + Unstuff(line));
      lines := [line] + more;
      UndottedFirst(line, more);
      DataLinesFirst(line, more);
      var (m, left) := ReadData(s, data).value;
      hide ReadData, Unstuff;
      Grouped(line, Join(more), END + left);
      Grouped(data, Unstuff(line), Join(Undotted(more)));
    }
  }

  lemma Grouped(a: seq<byte>, b: seq<byte>, c: seq<byte>)
    ensures a + (b + c) == a + b + c
  {
  }

  lemma DataLinesFirst(line: seq<byte>, more: seq<seq<byte>>)
    ensures DataLines([line] + more) <==> IsLine(line) && |line| <= 1024 && line != [46, 13, 10] && DataLines(more)
    ensures DataLines([])
  {
    hide IsLine;
    var all := [line] + more;
    assert forall i | 0 < i < |all| :: all[i] == more[i - 1];
    assert forall i | 0 <= i < |more| :: more[i] == all[i + 1];
    assert all[0] == line;
  }

  lemma JoinNothing()
    ensures Join(Undotted([])) == [] == Join([]) && DataLines([])
  {
  }

  lemma {:induction false} DataReads(lines: seq<seq<byte>>, rest: seq<byte>, data: seq<byte>)
    requires DataLines(lines) && |data + Join(Undotted(lines))| <= MAX_MESSAGE
    ensures ReadData(Join(lines) + (END + rest), data) == Some((data + Join(Undotted(lines)), rest))
    decreases |lines|
  {
    hide LineLength, ReadLine;
    if lines == [] {
      assert Join(lines) + (END + rest) == END + rest;
      AcceptableIffLine(END + rest, END, rest);
      assert data + [] == data;
    } else {
      var line, more := lines[0], lines[1..];
      assert lines == [line] + more;
      UndottedFirst(line, more);
      var tail := Join(more) + (END + rest);
      hide Undotted, Join;
      Grouped(line, Join(more), END + rest);
      AcceptableIffLine(line + tail, line, tail);
      Grouped(data, Unstuff(line), Join(Undotted(more)));
      DataReads(more, rest, data + Unstuff(line));
    }
  }

  /** `s` is those lines, the lone dot and `rest`; `m` is what the lines say. */
  ghost predicate DataPhase(s: seq<byte>, lines: seq<seq<byte>>, m: seq<byte>, rest: seq<byte>) {
    DataLines(lines) && s == Join(lines) + ([46, 13, 10] + rest) && m == Join(Undotted(lines)) && |m| <= 8192
  }

  /** What a data phase receives, on any bytes: CRLF lines of at most 1024 bytes up to the first
      lone dot, those that begin with two dots without the first, at most 8192 bytes in all. */
  lemma DataIff(s: seq<byte>, m: seq<byte>, rest: seq<byte>)
    ensures ReadData(s, []) == Some((m, rest)) <==> exists lines :: DataPhase(s, lines, m, rest)
  {
    if ReadData(s, []) == Some((m, rest)) {
      var lines := DataSeen(s, []);
      JoinNothing();
      assert [] + Join(Undotted(lines)) == Join(Undotted(lines));
      assert DataPhase(s, lines, m, rest);
    }
    if lines :| DataPhase(s, lines, m, rest) {
      assert [] + Join(Undotted(lines)) == Join(Undotted(lines));
      DataReads(lines, rest, []);
    }
  }

  // ----- The replies -----

  /** The reply to the first line of `s` when it does not move the session on. */
  function Parting(s: seq<byte>): seq<Reply> {
    var line := ReadLine(s).0;
    if !Acceptable(line) then [] else if Quits(line) then [Closing] else [InvalidSequence]
  }

  /** Any other line ends the session: QUIT in any case is answered with 221, an acceptable line
      with 503, and an unacceptable one not at all. */
  lemma StrayLineEnds(s: seq<byte>, state: nat, turns: nat, saved: Saved)
    requires turns > 0 && !(Acceptable(ReadLine(s).0) && Expected(ReadLine(s).0, state))
    ensures Commands(s, state, turns, saved) == Session(Parting(s), None)
  {
    ClassifyIs(ReadLine(s).0, state);
    hide Classify, ReadLine, ReadData, Expected, Acceptable, Quits;
  }

  /** The whole dialogue of a session that opens correctly, whatever the case and the arguments of
      its commands. */
  lemma DialogueIs(a: seq<byte>, b: seq<byte>, c: seq<byte>, d: seq<byte>, rest: seq<byte>, saved: Saved)
    requires Opening(a, b, c, d)
    ensures var received := ReadData(rest, []);
      var dialogue := [Greeting, Hello, SenderAccepted, RecipientAccepted, MessageFollows];
      Handle(a + (b + (c + (d + rest))), saved) ==
        if received.None? then Session(dialogue, None)
        else if saved.Raised? then Session(dialogue, Some(received.value.0))
        else Session(dialogue + ([if saved.Accepted? then StoredLocally else FixtureFull] + Parting(received.value.1)),
                     Some(received.value.0))
  {
    hide LineLength, ReadLine, ReadData, Commands, Expected, Parting;
    var s3 := d + rest;
    var s2 := c + s3;
    var s1 := b + s2;
    AdvanceReply(a, s1, 0, 8, saved);
    AdvanceReply(b, s2, 1, 7, saved);
    AdvanceReply(c, s3, 2, 6, saved);
    DataReply(d, rest, 5, saved);
  }

  lemma AdvanceReply(line: seq<byte>, rest: seq<byte>, state: nat, turns: nat, saved: Saved)
    requires IsLine(line) && |line| <= 1024 && state <= 2 && Expected(line, state) && turns > 0
    ensures Commands(line + rest, state, turns, saved) ==
      After(if state == 0 then Hello else if state == 1 then SenderAccepted else RecipientAccepted,
            Commands(rest, state + 1, turns - 1, saved))
  {
    AcceptableIffLine(line + rest, line, rest);
    ClassifyIs(line, state);
    hide Classify, ReadLine, Expected;
  }

  lemma DataReply(line: seq<byte>, rest: seq<byte>, turns: nat, saved: Saved)
    requires IsLine(line) && |line| <= 1024 && Expected(line, 3) && turns > 1
    ensures Commands(line + rest, 3, turns, saved) ==
      if ReadData(rest, []).None? then Session([MessageFollows], None)
      else if saved.Raised? then Session([MessageFollows], Some(ReadData(rest, []).value.0))
      else Session([MessageFollows, if saved.Accepted? then StoredLocally else FixtureFull] + Parting(ReadData(rest, []).value.1),
                   Some(ReadData(rest, []).value.0))
  {
    AcceptableIffLine(line + rest, line, rest);
    ClassifyIs(line, 3);
    if ReadData(rest, []).Some? {
      NothingExpected(ReadLine(ReadData(rest, []).value.1).0);
      StrayLineEnds(ReadData(rest, []).value.1, 4, turns - 1, saved);
    }
    hide Classify, ReadLine, ReadData, Expected, Parting;
  }

  lemma NothingExpected(line: seq<byte>)
    ensures !Expected(line, 4)
  {
  }

  /** Two sessions that open correctly and go on alike are answered alike and deliver the same
      message: in particular if they differ only in the case of the commands. */
  lemma CaseIsIgnored(a: seq<byte>, b: seq<byte>, c: seq<byte>, d: seq<byte>,
                      a': seq<byte>, b': seq<byte>, c': seq<byte>, d': seq<byte>, rest: seq<byte>, saved: Saved)
    requires Opening(a, b, c, d) && Opening(a', b', c', d')
    ensures Handle(a + (b + (c + (d + rest))), saved) == Handle(a' + (b' + (c' + (d' + rest))), saved)
  {
    DialogueIs(a, b, c, d, rest, saved);
    DialogueIs(a', b', c', d', rest, saved);
  }
}
