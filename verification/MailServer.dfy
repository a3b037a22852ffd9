/** scripts/dev-verification-mail.py, `Fixture` as a threaded server: connections, four slots
    and one mailbox, over every interleaving of the accepting thread and the handlers, and with a
    KeyboardInterrupt at any point of the accepting thread. */
module MailServer {
  import opened Wrappers
  import opened Bytes
  import opened MailSession
  import opened Mailbox

  const SLOTS := 4

  /** A connection that got a slot, counted from 0. */
  type Id = nat

  /** What a handler does next: read a command, read a line of data, call `save`, or return. */
  datatype Doing = Commanding | Collecting(data: seq<byte>) | Delivering(message: seq<byte>) | Ending

  /** The locals of `handle`: its client's bytes not yet read, `state`, and the reads left to the loop. */
  datatype Handler = Handler(unread: seq<byte>, state: nat, turns: nat, doing: Doing)

  /** Why `process_request` is in its except clause. */
  datatype Cause =
    | StartFailed        // the start raised, and there is no thread
    | InterruptedEarly   // a KeyboardInterrupt before the thread exists
    | InterruptedLate    // a KeyboardInterrupt once the thread exists

  /** Where the accepting thread is. `Acquired` is after line 24 and before the try. */
  datatype Position =
    Serving | Acquired(id: Id, input: seq<byte>) | Starting(id: Id, input: seq<byte>) | Started | Unwinding(cause: Cause) | Stopped

  /** `free` is the semaphore; `overReleases` counts releases the bounded semaphore refused with
      ValueError; `senders` are the connections whose handlers called `save`, with `requests`. */
  datatype Server = Server(
    free: nat, main: Position, live: map<Id, Handler>, overReleases: nat,
    inputs: seq<seq<byte>>, requests: seq<Request>, senders: seq<Id>)

  datatype Event =
    | Accept(input: seq<byte>)   // takes a slot for a client that will send `input`, or closes
    | EnterTry
    | ThreadBegins               // the handler thread exists
    | Returns                    // Thread.start, and process_request, return
    | StartRaises
    | Interrupt                  // KeyboardInterrupt in the accepting thread
    | ReleaseInExcept            // the release of line 30, and what is raised after it
    | Read(id: Id)               // a handler reads one line
    | Save(id: Id, now: real, name: Uuid, fault: Fault)
    | Finish(id: Id)             // a handler returns or raises, and line 36 releases

  // ----- Handlers -----

  /** One readline and what `handle` does with it. */
  function ReadStep(h: Handler): Handler {
    var (line, rest) := ReadLine(h.unread);
    match h.doing
    case Commanding =>
      if h.turns == 0 then h.(doing := Ending)
      else
        var g := h.(unread := rest, turns := h.turns - 1);
        (match Classify(line, h.state)
         case Advance(_) => g.(state := h.state + 1)
         case Receive => g.(doing := Collecting([]))
         case _ => g.(doing := Ending))
    case Collecting(data) =>
      var g := h.(unread := rest);
      if !Acceptable(line) then g.(doing := Ending)
      else if line == END then g.(doing := Delivering(data))
      else if |data + Unstuff(line)| > MAX_MESSAGE then g.(doing := Ending)
      else g.(doing := Collecting(data + Unstuff(line)))
    case _ => h
  }

  /** After `save` returned or raised. */
  function Answered(h: Handler, saved: Saved): Handler {
    if saved.Raised? then h.(doing := Ending) else h.(state := 4, doing := Commanding)
  }

  // ----- The server -----

  predicate Enabled(s: Server, e: Event) {
    match e
    case Accept(_) => s.main.Serving?
    case EnterTry => s.main.Acquired?
    case ThreadBegins => s.main.Starting?
    case Returns => s.main.Started?
    case StartRaises => s.main.Starting?
    case Interrupt => !s.main.Stopped?
    case ReleaseInExcept => s.main.Unwinding?
    case Read(id) => id in s.live && (s.live[id].doing.Commanding? || s.live[id].doing.Collecting?)
    case Save(id, now, _, _) =>
      id in s.live && s.live[id].doing.Delivering? &&
      (s.requests != [] ==> s.requests[|s.requests| - 1].now <= now)
    case Finish(id) => id in s.live
  }

  /** BoundedSemaphore.release. */
  function Release(s: Server): Server {
    if s.free < SLOTS then s.(free := s.free + 1) else s.(overReleases := s.overReleases + 1)
  }

  /** Where a KeyboardInterrupt takes the accepting thread. Outside the try it leaves
      `serve_forever`; inside it enters the except clause; inside that it skips the release. */
  function Interrupted(main: Position): Position {
    match main
    case Starting(_, _) => Unwinding(InterruptedEarly)
    case Started => Unwinding(InterruptedLate)
    case _ => Stopped
  }

  /** A refused release raises ValueError in place of what was being raised; socketserver handles
      an Exception and goes on serving, but lets a KeyboardInterrupt through. */
  function Released(s: Server): Server
    requires s.main.Unwinding?
  {
    Release(s).(main := if s.main.cause.StartFailed? || s.free >= SLOTS then Serving else Stopped)
  }

  function Next(s: Server, e: Event): Server
    requires Enabled(s, e)
  {
    match e
    case Accept(input) =>
      if s.free == 0 then s
      else s.(free := s.free - 1, main := Acquired(|s.inputs|, input), inputs := s.inputs + [input])
    case EnterTry => s.(main := Starting(s.main.id, s.main.input))
    case ThreadBegins =>
      s.(main := Started, live := s.live[s.main.id := Handler(s.main.input, 0, 8, Commanding)])
    case Returns => s.(main := Serving)
    case StartRaises => s.(main := Unwinding(StartFailed))
    case Interrupt => s.(main := Interrupted(s.main))
    case ReleaseInExcept => Released(s)
    case Read(id) => s.(live := s.live[id := ReadStep(s.live[id])])
    case Save(id, now, name, fault) =>
      var q := Request(now, name, s.live[id].doing.message, fault);
      s.(live := s.live[id := Answered(s.live[id], Deliver(Run(s.requests).box, q).1)],
         requests := s.requests + [q], senders := s.senders + [id])
    case Finish(id) => Release(s.(live := s.live - {id}))
  }

  const START := Server(SLOTS, Serving, map[], 0, [], [], [])

  /** The state after some events, each of them possible when it happened. */
  ghost function Steps(s: Server, es: seq<Event>): Option<Server> {
    if es == [] then Some(s)
    else
      var before := Steps(s, es[..|es| - 1]);
      if before.Some? && Enabled(before.value, es[|es| - 1]) then Some(Next(before.value, es[|es| - 1])) else None
  }

  ghost predicate Trace(es: seq<Event>) { Steps(START, es).Some? }

  ghost function After(es: seq<Event>): Server
    requires Trace(es)
  {
    Steps(START, es).value
  }

  lemma StepOn(s: Server, es: seq<Event>, e: Event)
    requires Steps(s, es).Some? && Enabled(Steps(s, es).value, e)
    ensures Steps(s, es + [e]) == Some(Next(Steps(s, es).value, e))
  {
    assert (es + [e])[..|es|] == es;
  }

  lemma {:induction false} PrefixSteps(s: Server, es: seq<Event>, k: nat)
    requires Steps(s, es).Some? && k <= |es|
    ensures Steps(s, es[..k]).Some?
  {
    if k < |es| {
      var front := es[..|es| - 1];
      PrefixSteps(s, front, k);
      assert front[..k] == es[..k];
    } else {
      assert es[..k] == es;
    }
  }

  /** The state before event `k`, or at the end. */
  ghost function At(es: seq<Event>, k: nat): Server
    requires Trace(es) && k <= |es|
  {
    PrefixSteps(START, es, k);
    After(es[..k])
  }

  lemma AtNext(es: seq<Event>, k: nat)
    requires Trace(es) && k < |es|
    ensures Enabled(At(es, k), es[k]) && At(es, k + 1) == Next(At(es, k), es[k])
    ensures At(es, |es|) == After(es)
  {
    PrefixSteps(START, es, k + 1);
    assert es[..k + 1][..k] == es[..k];
    assert es[..|es|] == es;
  }

  // ----- Messages -----

  /** A handler whose client sends `input`, and whether it has called `save`: what is left of the
      session is what is left of its bytes. */
  ghost predicate HandlerInv(h: Handler, input: seq<byte>, sent: bool) {
    h.state <= 4 &&
    match h.doing
    case Commanding =>
      && (sent <==> h.state == 4)
      && (if sent then Message(input).Some? else Message(input) == Commands(h.unread, h.state, h.turns, Accepted).message)
    case Collecting(data) =>
      h.state == 3 && !sent && |data| <= MAX_MESSAGE && Message(input) == Received(ReadData(h.unread, data))
    case Delivering(message) => h.state == 3 && !sent && Message(input) == Some(message) && |message| <= MAX_MESSAGE
    case Ending => sent <==> Message(input).Some?
  }

  function Received(r: Option<(seq<byte>, seq<byte>)>): Option<seq<byte>> {
    if r.Some? then Some(r.value.0) else None
  }

  lemma BeginsWell(input: seq<byte>)
    ensures HandlerInv(Handler(input, 0, 8, Commanding), input, false)
  {
    hide Commands;
  }

  /** Only state 3 receives, so a handler that has called `save` never collects again. */
  lemma ReadKeeps(h: Handler, input: seq<byte>, sent: bool)
    requires HandlerInv(h, input, sent) && (h.doing.Commanding? || h.doing.Collecting?)
    ensures HandlerInv(ReadStep(h), input, sent)
  {
    hide ReadLine, Upper, Message;
  }

  lemma AnswerKeeps(h: Handler, input: seq<byte>, saved: Saved)
    requires HandlerInv(h, input, false) && h.doing.Delivering?
    ensures HandlerInv(Answered(h, saved), input, true)
  {
    hide Message;
  }

  ghost predicate Sent(s: Server, id: Id) { exists i | 0 <= i < |s.senders| :: s.senders[i] == id }

  /** The calls of `save` so far. */
  ghost predicate SendersInv(s: Server) {
    && ClockNeverFallsBack(s.requests)
    && |s.senders| == |s.requests|
    && (forall i | 0 <= i < |s.senders| :: s.senders[i] < |s.inputs|)
    && (forall i | 0 <= i < |s.senders| :: Message(s.inputs[s.senders[i]]) == Some(s.requests[i].message))
    && (forall i | 0 <= i < |s.senders| :: |s.requests[i].message| <= MAX_MESSAGE)
    && (forall i, j | 0 <= i < j < |s.senders| :: s.senders[i] != s.senders[j])
  }

  ghost predicate MailInv(s: Server) {
    && SendersInv(s)
    && (forall id | id in s.live :: id < |s.inputs| && HandlerInv(s.live[id], s.inputs[id], Sent(s, id)))
    && (s.main.Acquired? || s.main.Starting? ==>
          s.main.id < |s.inputs| && s.inputs[s.main.id] == s.main.input && !Sent(s, s.main.id) && s.main.id !in s.live)
  }

  lemma SendersGrow(s: Server, t: Server, id: Id, q: Request)
    requires SendersInv(s) && !Sent(s, id) && id < |s.inputs| && t.inputs == s.inputs
    requires Message(s.inputs[id]) == Some(q.message) && |q.message| <= MAX_MESSAGE
    requires s.requests != [] ==> s.requests[|s.requests| - 1].now <= q.now
    requires t.requests == s.requests + [q] && t.senders == s.senders + [id]
    ensures SendersInv(t)
    ensures forall other :: Sent(t, other) <==> Sent(s, other) || other == id
  {
    hide Message;
    forall other ensures Sent(t, other) <==> Sent(s, other) || other == id {
      assert t.senders[|s.senders|] == id;
      assert forall i | 0 <= i < |s.senders| :: t.senders[i] == s.senders[i];
    }
  }

  lemma SaveKeeps(s: Server, id: Id, q: Request, saved: Saved)
    requires MailInv(s) && id in s.live && s.live[id].doing == Delivering(q.message)
    requires s.requests != [] ==> s.requests[|s.requests| - 1].now <= q.now
    ensures MailInv(s.(live := s.live[id := Answered(s.live[id], saved)],
                       requests := s.requests + [q], senders := s.senders + [id]))
  {
    assert HandlerInv(s.live[id], s.inputs[id], Sent(s, id));
    hide Message, Answered, SendersInv, Sent;
    AnswerKeeps(s.live[id], s.inputs[id], saved);
    var t := s.(live := s.live[id := Answered(s.live[id], saved)], requests := s.requests + [q], senders := s.senders + [id]);
    SendersGrow(s, t, id, q);
    hide HandlerInv;
  }

  /** Nothing but `live` and the accepting thread's place changes. */
  lemma OtherStep(s: Server, t: Server)
    requires MailInv(s) && t.senders == s.senders && t.requests == s.requests && s.inputs <= t.inputs
    ensures SendersInv(t)
    ensures forall id :: Sent(t, id) == Sent(s, id)
    ensures forall id | id in s.live :: id < |t.inputs| && HandlerInv(s.live[id], t.inputs[id], Sent(t, id))
    ensures !Sent(t, |s.inputs|)
  {
    hide Message, HandlerInv;
    assert forall id :: Sent(t, id) == Sent(s, id);
  }

  lemma MailStep(s: Server, e: Event)
    requires MailInv(s) && Enabled(s, e)
    ensures MailInv(Next(s, e))
  {
    hide Message, HandlerInv, ReadStep, Answered, SendersInv, Sent, Deliver, Run;
    var t := Next(s, e);
    match e
    case ThreadBegins =>
      BeginsWell(s.main.input);
      OtherStep(s, t);
    case Read(id) =>
      ReadKeeps(s.live[id], s.inputs[id], Sent(s, id));
      OtherStep(s, t);
    case Save(id, now, name, fault) =>
      var q := Request(now, name, s.live[id].doing.message, fault);
      SaveKeeps(s, id, q, Deliver(Run(s.requests).box, q).1);
    case _ =>
      OtherStep(s, t);
  }

  lemma {:induction false} MailAlways(es: seq<Event>)
    requires Trace(es)
    ensures MailInv(After(es))
  {
    if es != [] {
      PrefixSteps(START, es, |es| - 1);
      MailAlways(es[..|es| - 1]);
      hide MailInv;
      MailStep(After(es[..|es| - 1]), es[|es| - 1]);
    }
  }

  /** Whatever the interleaving: each connection calls `save` at most once, with exactly the
      message its own bytes spell, of at most 8192 bytes; and a handler that comes to its end
      undisturbed has called it exactly when its bytes spell one. */
  lemma OneMessageEach(es: seq<Event>)
    requires Trace(es)
    ensures var s := After(es);
      |s.senders| == |s.requests| &&
      (forall i, j | 0 <= i < j < |s.senders| :: s.senders[i] != s.senders[j]) &&
      (forall i | 0 <= i < |s.senders| :: s.senders[i] < |s.inputs| &&
         Message(s.inputs[s.senders[i]]) == Some(s.requests[i].message) && |s.requests[i].message| <= MAX_MESSAGE) &&
      (forall id | id in s.live && s.live[id].doing.Ending? ::
         id < |s.inputs| && (Sent(s, id) <==> Message(s.inputs[id]).Some?))
  {
    MailAlways(es);
    hide Message, After;
  }

  /** Whatever the interleaving: the mailbox accepts at most a hundred messages in any hour, and
      never holds more than a hundred. */
  lemma MailboxBounded(es: seq<Event>, from: real, window: set<int>)
    requires Trace(es)
    requires var h := Run(After(es).requests);
      forall i | i in window :: 0 <= i < |h.accepted| && from <= h.accepted[i].time < from + LIFETIME
    ensures |window| <= MAX_MESSAGES && |Run(After(es).requests).box.owned| <= MAX_MESSAGES
  {
    MailAlways(es);
    hide Run, After;
    WindowBound(After(es).requests, from, window);
    DirectoryIsOwned(After(es).requests);
  }
}
