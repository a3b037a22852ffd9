/** scripts/dev-verification-mail.py, the four slots of `Fixture`: how many are free and held in
    every interleaving, and exactly when that goes wrong. */
module MailSlots {
  import opened Wrappers
  import opened Bytes
  import opened Mailbox
  import opened MailServer

  /** Slots taken: one for each handler, and one while the accepting thread answers for it. */
  function Held(s: Server): nat {
    |s.live| + if s.main.Acquired? || s.main.Starting? || (s.main.Unwinding? && !s.main.cause.InterruptedLate?) then 1 else 0
  }

  function Balance(s: Server): nat { s.free + Held(s) }

  /** An interrupt between acquire and try, or before the release of a slot no thread has. */
  predicate LosesSlot(s: Server, e: Event) {
    e.Interrupt? && (s.main.Acquired? || (s.main.Unwinding? && !s.main.cause.InterruptedLate?))
  }

  /** `process_request` releases a slot that a handler thread releases as well. */
  predicate ReleasesTwice(s: Server, e: Event) { e.ReleaseInExcept? && s.main == Unwinding(InterruptedLate) }

  ghost predicate SlotsInv(s: Server) {
    && s.free <= SLOTS && |s.live| <= SLOTS
    && SLOTS - 1 <= Balance(s) <= SLOTS + 1
    && (!s.main.Stopped? ==> Balance(s) == SLOTS)
    && (forall id | id in s.live :: id < |s.inputs|)
    && (s.main.Acquired? || s.main.Starting? ==> s.main.id !in s.live && s.main.id < |s.inputs| && s.inputs[s.main.id] == s.main.input)
  }

  lemma GrowByOne<V>(m: map<Id, V>, id: Id, v: V)
    ensures id !in m ==> |m[id := v]| == |m| + 1
    ensures id in m ==> |m[id := v]| == |m| && |m - {id}| == |m| - 1
  {
    assert m[id := v].Keys == m.Keys + {id};
    assert (m - {id}).Keys == m.Keys - {id};
    assert |m| == |m.Keys| && |m - {id}| == |(m - {id}).Keys| && |m[id := v]| == |m[id := v].Keys|;
  }

  /** What one event does to the live handlers. */
  lemma LiveStep(s: Server, e: Event)
    requires SlotsInv(s) && Enabled(s, e)
    ensures |Next(s, e).live| == |s.live| + (if e.ThreadBegins? then 1 else if e.Finish? then -1 else 0)
  {
    hide ReadStep, Answered, Deliver, Run;
    match e
    case ThreadBegins => GrowByOne(s.live, s.main.id, Handler(s.main.input, 0, 8, Commanding));
    case Read(id) => GrowByOne(s.live, id, ReadStep(s.live[id]));
    case Save(id, _, _, _) => GrowByOne(s.live, id, Next(s, e).live[id]);
    case Finish(id) => GrowByOne(s.live, id, s.live[id]);
    case _ =>
  }

  lemma SlotsStep(s: Server, e: Event)
    requires SlotsInv(s) && Enabled(s, e)
    ensures SlotsInv(Next(s, e))
    ensures Balance(Next(s, e)) < SLOTS <==> Balance(s) < SLOTS || LosesSlot(s, e)
    ensures Balance(Next(s, e)) > SLOTS <==>
      (Balance(s) > SLOTS || ReleasesTwice(s, e)) && Next(s, e).live != map[]
    ensures Next(s, e).overReleases == s.overReleases +
      if (Balance(s) > SLOTS || ReleasesTwice(s, e)) && Next(s, e).live == map[] then 1 else 0
    ensures Balance(s) > SLOTS ==> s.main.Stopped? && s.live != map[]
  {
    BalanceStep(s, e);
    hide ReadStep, Answered, Deliver, Run, Balance;
    LiveStep(s, e);
  }

  lemma BalanceStep(s: Server, e: Event)
    requires SlotsInv(s) && Enabled(s, e)
    ensures var t := Next(s, e); SLOTS - 1 <= Balance(t) <= SLOTS + 1 && (!t.main.Stopped? ==> Balance(t) == SLOTS) && t.free <= SLOTS && |t.live| <= SLOTS
    ensures Balance(Next(s, e)) < SLOTS <==> Balance(s) < SLOTS || LosesSlot(s, e)
    ensures Balance(Next(s, e)) > SLOTS <==>
      (Balance(s) > SLOTS || ReleasesTwice(s, e)) && Next(s, e).live != map[]
    ensures Next(s, e).overReleases == s.overReleases +
      if (Balance(s) > SLOTS || ReleasesTwice(s, e)) && Next(s, e).live == map[] then 1 else 0
    ensures Balance(s) > SLOTS ==> s.main.Stopped? && s.live != map[]
  {
    hide ReadStep, Answered, Deliver, Run;
    LiveStep(s, e);
    assert |s.live| == 0 <==> s.live == map[];
    var t := Next(s, e);
    assert |t.live| == 0 <==> t.live == map[];
  }

  lemma {:induction false} SlotsAlways(es: seq<Event>)
    requires Trace(es)
    ensures SlotsInv(After(es))
  {
    if es != [] {
      SlotsAlways(es[..|es| - 1]);
      SlotsStep(After(es[..|es| - 1]), es[|es| - 1]);
    }
  }

  lemma AtFront(es: seq<Event>, k: nat)
    requires Trace(es) && k < |es|
    ensures var front := es[..|es| - 1]; Trace(front) && At(es, k) == At(front, k) && (k < |front| ==> es[k] == front[k])
  {
    PrefixSteps(START, es, |es| - 1);
    assert es[..|es| - 1][..k] == es[..k];
  }

  /** Event `k` loses a slot. */
  ghost predicate Loss(es: seq<Event>, k: nat)
    requires Trace(es) && k < |es|
  {
    LosesSlot(At(es, k), es[k])
  }

  /** Event `k` is the release of a slot whose thread exists. */
  ghost predicate Twice(es: seq<Event>, k: nat)
    requires Trace(es) && k < |es|
  {
    ReleasesTwice(At(es, k), es[k])
  }

  /** No handler is live before event `k`, or at the end. */
  ghost predicate Idle(es: seq<Event>, k: nat)
    requires Trace(es) && k <= |es|
  {
    At(es, k).live == map[]
  }

  ghost predicate TooFew(es: seq<Event>)
    requires Trace(es)
  {
    Balance(After(es)) < SLOTS
  }

  ghost predicate TooMany(es: seq<Event>)
    requires Trace(es)
  {
    Balance(After(es)) > SLOTS
  }

  ghost predicate OverReleased(es: seq<Event>)
    requires Trace(es)
  {
    After(es).overReleases > 0
  }

  lemma FrontHistory(es: seq<Event>)
    requires Trace(es) && es != []
    ensures var front := es[..|es| - 1];
      && Trace(front)
      && (forall k: nat | k < |front| :: Loss(es, k) == Loss(front, k) && Twice(es, k) == Twice(front, k))
      && (forall k: nat | k <= |front| :: Idle(es, k) == Idle(front, k))
  {
    var front := es[..|es| - 1];
    PrefixSteps(START, es, |es| - 1);
    forall k: nat | k < |front| ensures Loss(es, k) == Loss(front, k) && Twice(es, k) == Twice(front, k) { AtFront(es, k); }
    forall k: nat | k <= |front| ensures Idle(es, k) == Idle(front, k) { AtFront(es, k); }
  }

  /** What the last event of a trace does to the count. */
  lemma LastEvent(es: seq<Event>)
    requires Trace(es) && es != []
    ensures var n := |es| - 1;
      && Trace(es[..n])
      && (TooFew(es) <==> TooFew(es[..n]) || Loss(es, n))
      && (TooMany(es) <==> (TooMany(es[..n]) || Twice(es, n)) && !Idle(es, n + 1))
      && (OverReleased(es) <==> OverReleased(es[..n]) || ((TooMany(es[..n]) || Twice(es, n)) && Idle(es, n + 1)))
      && (Twice(es, n) ==> Idle(es, n) == Idle(es, n + 1))
  {
    var n := |es| - 1;
    PrefixSteps(START, es, n);
    SlotsAlways(es[..n]);
    AtNext(es, n);
    AtFront(es, n);
    assert es[..n][..n] == es[..n];
    var s := After(es[..n]);
    assert At(es, n) == s && At(es, n + 1) == After(es) == Next(s, es[n]);
    SlotsStep(s, es[n]);
    if Twice(es, n) { ReleaseKeepsLive(s, es[n]); }
  }

  /** A slot is lost for good exactly when an interrupt comes between acquire and try, or in the
      except clause before the release of a slot that no thread has. */
  lemma {:induction false} SlotLostIff(es: seq<Event>)
    requires Trace(es)
    ensures TooFew(es) <==> exists k: nat :: k < |es| && Loss(es, k)
  {
    if es != [] {
      LastEvent(es);
      FrontHistory(es);
      SlotLostIff(es[..|es| - 1]);
    }
  }

  /** After event `k` there is always a live handler. */
  ghost predicate BusySince(es: seq<Event>, k: nat)
    requires Trace(es)
  {
    forall j: nat | k < j <= |es| :: !Idle(es, j)
  }

  ghost predicate DoubledAt(es: seq<Event>, k: nat)
    requires Trace(es)
  {
    k < |es| && Twice(es, k) && BusySince(es, k)
  }

  lemma DoubledStep(es: seq<Event>, k: nat)
    requires Trace(es) && es != [] && Trace(es[..|es| - 1])
    ensures DoubledAt(es, k) <==>
      !Idle(es, |es|) && if k < |es| - 1 then DoubledAt(es[..|es| - 1], k) else k == |es| - 1 && Twice(es, k)
  {
    hide Trace, Steps, Twice, Idle, Loss, At, After, Next, Enabled;
    var front := es[..|es| - 1];
    FrontHistory(es);
    if k < |front| {
      assert Twice(es, k) == Twice(front, k);
      assert BusySince(es, k) <==> BusySince(front, k) && !Idle(es, |es|);
    }
  }

  lemma NothingYet()
    ensures Trace([]) && !TooFew([]) && !TooMany([]) && !OverReleased([])
  {
  }

  /** There is a slot too many exactly when `process_request` has released the slot of a thread
      that exists, and there has been a live handler ever since. */
  lemma {:induction false} SlotDoubledIff(es: seq<Event>)
    requires Trace(es)
    ensures TooMany(es) <==> exists k: nat :: DoubledAt(es, k)
  {
    if es == [] {
      NothingYet();
    } else {
      var n := |es| - 1;
      LastEvent(es);
      SlotDoubledIff(es[..n]);
      hide Trace, Twice, Idle, TooMany, DoubledAt;
      forall k: nat ensures DoubledAt(es, k) <==> !Idle(es, n + 1) && if k < n then DoubledAt(es[..n], k) else k == n && Twice(es, k) {
        DoubledStep(es, k);
      }
      if k: nat :| DoubledAt(es[..n], k) { DoubledBound(es[..n], k); }
    }
  }

  lemma DoubledBound(es: seq<Event>, k: nat)
    requires Trace(es) && DoubledAt(es, k)
    ensures k < |es|
  {
  }

  /** Event `k` released a running thread's slot, and at `j` no handler is live. */
  ghost predicate OverAt(es: seq<Event>, k: nat, j: nat)
    requires Trace(es)
  {
    k < j <= |es| && Twice(es, k) && Idle(es, j)
  }

  lemma OverStep(es: seq<Event>, k: nat, j: nat)
    requires Trace(es) && es != [] && Trace(es[..|es| - 1])
    ensures OverAt(es, k, j) <==>
      if j < |es| then OverAt(es[..|es| - 1], k, j) else j == |es| && Idle(es, j) && k < |es| && Twice(es, k)
    ensures DoubledAt(es[..|es| - 1], k) ==> k < |es| && Twice(es, k)
  {
    FrontHistory(es);
    hide Trace, Twice, Idle;
  }

  lemma IdleLater(es: seq<Event>, k: nat) returns (j: nat)
    requires Trace(es) && es != [] && k < |es| - 1 && Twice(es, k) && Trace(es[..|es| - 1])
    requires !DoubledAt(es[..|es| - 1], k)
    ensures OverAt(es[..|es| - 1], k, j)
  {
    FrontHistory(es);
    hide Trace, Twice, Idle;
    assert Twice(es[..|es| - 1], k);
    j :| k < j <= |es| - 1 && Idle(es[..|es| - 1], j);
  }

  lemma {:induction false} OverReleaseSeen(es: seq<Event>) returns (k: nat, j: nat)
    requires Trace(es) && OverReleased(es)
    ensures OverAt(es, k, j)
  {
    NothingYet();
    var n := |es| - 1;
    LastEvent(es);
    hide Trace, Twice, Idle, TooMany, OverReleased, DoubledAt, OverAt;
    if OverReleased(es[..n]) {
      k, j := OverReleaseSeen(es[..n]);
      OverStep(es, k, j);
      OverBound(es[..n], k, j);
    } else {
      k, j := n, n + 1;
      if TooMany(es[..n]) {
        SlotDoubledIff(es[..n]);
        k :| DoubledAt(es[..n], k);
      }
      OverStep(es, k, j);
    }
  }

  lemma {:induction false} OverReleaseHappens(es: seq<Event>, k: nat, j: nat)
    requires Trace(es) && OverAt(es, k, j)
    ensures OverReleased(es)
  {
    hide Trace, Steps, After, At, Twice, Idle, TooMany, TooFew, OverReleased, DoubledAt, OverAt;
    var n := |es| - 1;
    OverBound(es, k, j);
    LastEvent(es);
    OverStep(es, k, j);
    if j <= n {
      OverReleaseHappens(es[..n], k, j);
    } else if k < n {
      if DoubledAt(es[..n], k) {
        SlotDoubledIff(es[..n]);
      } else {
        var i := IdleLater(es, k);
        OverReleaseHappens(es[..n], k, i);
      }
    }
  }

  lemma OverBound(es: seq<Event>, k: nat, j: nat)
    requires Trace(es) && OverAt(es, k, j)
    ensures k < j <= |es|
  {
  }

  /** The semaphore is released past its bound exactly when `process_request` has released the
      slot of a thread that exists, and then or at some later time no handler is live. */
  lemma OverReleasedIff(es: seq<Event>)
    requires Trace(es)
    ensures OverReleased(es) <==> exists k: nat, j: nat :: OverAt(es, k, j)
  {
    hide OverReleased, OverAt;
    if OverReleased(es) { var _, _ := OverReleaseSeen(es); }
    if k: nat, j: nat :| OverAt(es, k, j) { OverReleaseHappens(es, k, j); }
  }

  /** Free slots and held slots are four before event `k`, or at the end. */
  ghost predicate FourAt(es: seq<Event>, k: nat)
    requires Trace(es) && k <= |es|
  {
    Balance(At(es, k)) == SLOTS
  }

  /** Event `k` loses a slot, or releases that of a thread that exists while some handler is live. */
  ghost predicate Breaks(es: seq<Event>, k: nat)
    requires Trace(es) && k < |es|
  {
    Loss(es, k) || (Twice(es, k) && !Idle(es, k))
  }

  lemma FourStep(es: seq<Event>)
    requires Trace(es) && es != []
    ensures var n := |es| - 1;
      && Trace(es[..n])
      && (forall k: nat | k <= n :: FourAt(es, k) == FourAt(es[..n], k))
      && (forall k: nat | k < n :: Breaks(es, k) == Breaks(es[..n], k))
      && (FourAt(es, n) ==> (FourAt(es, n + 1) <==> !Breaks(es, n)))
  {
    var n := |es| - 1;
    LastEvent(es);
    FrontHistory(es);
    forall k: nat | k <= n ensures At(es, k) == At(es[..n], k) { AtFront(es, k); }
    AtNext(es, n);
    assert es[..n + 1] == es;
    assert FourAt(es, n) <==> !TooFew(es[..n]) && !TooMany(es[..n]);
    assert FourAt(es, n + 1) <==> !TooFew(es) && !TooMany(es);
    hide Trace, Steps, Loss, Twice, Idle, TooMany, TooFew, FourAt;
  }

  /** The count is four at every moment if and only if no event breaks it. */
  lemma {:induction false} FourAtEveryMomentIff(es: seq<Event>)
    requires Trace(es)
    ensures (forall k: nat | k <= |es| :: FourAt(es, k)) <==> forall k: nat | k < |es| :: !Breaks(es, k)
  {
    if es == [] {
      assert At(es, 0) == START;
    } else {
      var n := |es| - 1;
      FourStep(es);
      FourAtEveryMomentIff(es[..n]);
      hide Trace, Steps, FourAt, Breaks;
      if forall k: nat | k <= |es| :: FourAt(es, k) { assert FourAt(es, n) && FourAt(es, n + 1); }
      if forall k: nat | k < |es| :: !Breaks(es, k) {
        assert forall k: nat | k < n :: !Breaks(es[..n], k);
        assert FourAt(es, n);
      }
    }
  }

  /** At most four handlers run, whatever happens; without interrupts the count is always four
      and the bound is never passed. */
  lemma FourSlots(es: seq<Event>)
    requires Trace(es)
    ensures |After(es).live| <= SLOTS
    ensures Interrupt !in es ==> Balance(After(es)) == SLOTS && After(es).overReleases == 0
  {
    SlotsAlways(es);
    InterruptsCounted(es);
  }

  lemma ReleaseKeepsLive(s: Server, e: Event)
    requires Enabled(s, e) && ReleasesTwice(s, e)
    ensures Next(s, e).live == s.live
  {
  }

  /** Interrupts used up: one for each release past the bound, one for a count that is or will be wrong. */
  function Used(s: Server): nat {
    s.overReleases + if Balance(s) != SLOTS || s.main == Unwinding(InterruptedLate) then 1 else 0
  }

  lemma InterruptStep(s: Server, e: Event)
    requires SlotsInv(s) && Enabled(s, e)
    ensures Used(Next(s, e)) <= Used(s) + if e.Interrupt? then 1 else 0
  {
    SlotsStep(s, e);
    hide ReadStep, Answered, Deliver, Run;
    LiveStep(s, e);
    assert s.live == map[] ==> |s.live| == 0;
  }

  /** Every release past the bound, and every wrong count, takes a KeyboardInterrupt of its own. */
  lemma {:induction false} InterruptsCounted(es: seq<Event>)
    requires Trace(es)
    ensures Used(After(es)) <= multiset(es)[Interrupt]
  {
    if es != [] {
      var n := |es| - 1;
      FrontAndLast(es);
      InterruptsCounted(es[..n]);
      InterruptStep(After(es[..n]), es[n]);
      hide Trace, Steps, SlotsInv, At, After, Next, Enabled, Used;
      assert es == es[..n] + [es[n]];
      assert multiset(es) == multiset(es[..n]) + multiset{es[n]};
    }
  }

  lemma FrontAndLast(es: seq<Event>)
    requires Trace(es) && es != []
    ensures var n := |es| - 1;
      && Trace(es[..n]) && SlotsInv(After(es[..n])) && Enabled(After(es[..n]), es[n])
      && After(es) == Next(After(es[..n]), es[n])
  {
    PrefixSteps(START, es, |es| - 1);
    SlotsAlways(es[..|es| - 1]);
  }

  // ----- Traces on which it does go wrong -----

  lemma Grow(es: seq<Event>, e: Event) returns (more: seq<Event>)
    requires Trace(es) && Enabled(After(es), e)
    ensures more == es + [e] && Trace(more) && After(more) == Next(After(es), e)
  {
    more := es + [e];
    StepOn(START, es, e);
  }

  /** An interrupt right after the acquire: three slots are left. */
  lemma SlotLostOccurs(input: seq<byte>)
    ensures Trace([Accept(input), Interrupt]) && Balance(After([Accept(input), Interrupt])) == 3
  {
    hide Run, Deliver, ReadStep;
    var es := Grow([], Accept(input));
    es := Grow(es, Interrupt);
    assert [] + [Accept(input)] + [Interrupt] == [Accept(input), Interrupt];
  }

  /** An interrupt once the thread exists: `process_request` releases first, then the thread. */
  lemma OverReleaseOccurs(input: seq<byte>)
    ensures var es := [Accept(input), EnterTry, ThreadBegins, Interrupt, ReleaseInExcept, Finish(0)];
      Trace(es) && After(es).overReleases == 1 && After(es).main == Stopped
  {
    hide Run, Deliver, ReadStep;
    var es := Grow([], Accept(input));
    es := Grow(es, EnterTry);
    es := Grow(es, ThreadBegins);
    es := Grow(es, Interrupt);
    assert |es| == 4 && After(es).live.Keys == {0} && After(es).free == 3;
    es := Grow(es, ReleaseInExcept);
    es := Grow(es, Finish(0));
    assert es == [Accept(input), EnterTry, ThreadBegins, Interrupt, ReleaseInExcept, Finish(0)];
  }

  /** The other order: the thread is done before `process_request` releases. The ValueError of
      that release replaces the KeyboardInterrupt and the server goes on; so there is no limit to
      the number of such releases in one run. */
  lemma {:induction false} OverReleaseRepeats(input: seq<byte>, n: nat) returns (es: seq<Event>)
    ensures Trace(es) && var s := After(es);
      s.overReleases == n && s.main == Serving && s.live == map[] && s.free == SLOTS && |s.inputs| == n
  {
    hide Run, Deliver, ReadStep;
    if n == 0 {
      es := [];
    } else {
      es := OverReleaseRepeats(input, n - 1);
      es := Grow(es, Accept(input));
      es := Grow(es, EnterTry);
      es := Grow(es, ThreadBegins);
      es := Grow(es, Interrupt);
      es := Grow(es, Finish(n - 1));
      assert After(es).live == map[];
      es := Grow(es, ReleaseInExcept);
    }
  }

  // ----- The semaphore as the source keeps it -----

  /** How one call of `process_request` goes, once it has a slot. */
  datatype Course =
    | Runs                                  // the thread starts
    | BeforeTry                             // KeyboardInterrupt between acquire and try
    | InTry(cause: Cause, again: bool)      // except clause; `again`: interrupted before its release

  /** Its events after the accept; `ended` are the handlers that end before the except clause releases. */
  function Events(course: Course, ended: seq<Id>): seq<Event> {
    match course
    case Runs => [EnterTry, ThreadBegins, Returns]
    case BeforeTry => [Interrupt]
    case InTry(cause, again) =>
      Enters(cause) + Finishes(ended) + [if again then Interrupt else ReleaseInExcept]
  }

  function Enters(cause: Cause): seq<Event> {
    match cause
    case StartFailed => [EnterTry, StartRaises]
    case InterruptedEarly => [EnterTry, Interrupt]
    case InterruptedLate => [EnterTry, ThreadBegins, Interrupt]
  }

  function Finishes(ids: seq<Id>): (es: seq<Event>)
    ensures |es| == |ids|
    ensures forall i | 0 <= i < |es| :: es[i] == Finish(ids[i])
  {
    seq(|ids|, i requires 0 <= i < |ids| => Finish(ids[i]))
  }

  /** `threading.BoundedSemaphore(4)`, as `Fixture` uses it. */
  class Slots {
    var free: nat

    constructor ()
      ensures free == SLOTS
    {
      free := SLOTS;
    }

    /** acquire(blocking=False) */
    method Acquire() returns (ok: bool)
      modifies this
      ensures ok == (old(free) > 0) && free == if ok then old(free) - 1 else old(free)
    {
      ok := free > 0;
      if ok { free := free - 1; }
    }

    /** False stands for ValueError. */
    method Release() returns (ok: bool)
      modifies this
      ensures ok == (old(free) < SLOTS) && free == if ok then old(free) + 1 else old(free)
    {
      ok := free < SLOTS;
      if ok { free := free + 1; }
    }

    /** `process_request`, for a client that will send `input`, as `course` has it go: the events
        must be possible. True when an exception leaves `serve_forever`. */
    method ProcessRequest(ghost s: Server, input: seq<byte>, course: Course, ended: seq<Id>)
      returns (leaves: bool, ghost s': Server)
      requires free == s.free && SlotsInv(s) && s.main.Serving?
      requires s.free > 0 ==> Steps(s, [Accept(input)] + Events(course, ended)).Some?
      modifies this
      ensures s' == if s.free == 0 then Next(s, Accept(input)) else Steps(s, [Accept(input)] + Events(course, ended)).value
      ensures free == s'.free && SlotsInv(s')
      ensures leaves <==> s'.main.Stopped?
    {
      ghost var es := [Accept(input)] + Events(course, ended);
      ghost var n := 0;
      s' := Next(s, Accept(input));
      SlotsStep(s, Accept(input));
      if s.free > 0 {
        assert es[..0] == [] && Along(s, es, 0, s);
        n, s' := Advance(s, es, 0, s);
      }
      assert s.free == 0 ==> s' == s;
      hide Next, Enabled, Steps, SlotsInv, Enters, Along;
      var ok := Acquire();
      if !ok { return false, s'; }
      match course {
        case Runs =>
          n, s' := Starts(s, es, s');
          leaves := false;
        case BeforeTry =>
          n, s' := Advance(s, es, n, s');
          leaves := true;
        case InTry(cause, again) =>
          n, s' := EntersExcept(s, es, s', cause, Finishes(ended) + [if again then Interrupt else ReleaseInExcept]);
          leaves, n, s' := ExceptClause(s, es, n, s', cause, again, ended);
      }
      AlongAll(s, es, n, s');
    }

    /** What happens from an exception in the try until one leaves `process_request`. */
    method ExceptClause(ghost s: Server, ghost es: seq<Event>, ghost n: nat, ghost now: Server,
                        cause: Cause, again: bool, ended: seq<Id>) returns (leaves: bool, ghost m: nat, ghost s': Server)
      requires Along(s, es, n, now) && free == now.free && now.main == Unwinding(cause)
      requires es[n..] == Finishes(ended) + [if again then Interrupt else ReleaseInExcept]
      modifies this
      ensures m == |es| && Along(s, es, m, s') && free == s'.free
      ensures leaves <==> s'.main.Stopped?
    {
      hide Next, Enabled, Steps, SlotsInv;
      m, s' := n, now;
      for i := 0 to |ended|
        invariant m == n + i && Along(s, es, m, s') && free == s'.free && s'.main == Unwinding(cause)
      {
        assert es[n + i] == es[n..][i];
        m, s' := Advance(s, es, m, s');
        var _ := Release();
      }
      assert es[m] == es[n..][|ended|];
      m, s' := Advance(s, es, m, s');
      if again { return true, m, s'; }
      var ok := Release();
      leaves := ok && !cause.StartFailed?;
    }

    /** `process_request_thread`, once its handler has returned or raised. */
    method ThreadEnds(ghost s: Server, id: Id) returns (ghost s': Server)
      requires free == s.free && SlotsInv(s) && id in s.live
      modifies this
      ensures s' == Next(s, Finish(id)) && free == s'.free && SlotsInv(s')
    {
      var _ := Release();
      SlotsStep(s, Finish(id));
      s' := Next(s, Finish(id));
    }
  }

  /** The state after the first `n` events. */
  ghost predicate Along(s: Server, es: seq<Event>, n: nat, now: Server) {
    n <= |es| && Steps(s, es).Some? && Steps(s, es[..n]) == Some(now) && SlotsInv(now)
  }

  lemma Advance(s: Server, es: seq<Event>, n: nat, now: Server) returns (m: nat, next: Server)
    requires Along(s, es, n, now) && n < |es|
    ensures m == n + 1 && Along(s, es, m, next) && Enabled(now, es[n]) && next == Next(now, es[n])
    ensures es[n].Accept? ==> next.free == if now.free == 0 then 0 else now.free - 1
    ensures es[n].Finish? || es[n].ReleaseInExcept? ==> next.free == if now.free < SLOTS then now.free + 1 else now.free
    ensures !es[n].Accept? && !es[n].Finish? && !es[n].ReleaseInExcept? ==> next.free == now.free
    ensures es[n].Interrupt? && !now.main.Starting? && !now.main.Started? ==> next.main.Stopped?
    ensures es[n].ReleaseInExcept? ==> (next.main.Stopped? <==> !now.main.cause.StartFailed? && now.free < SLOTS)
    ensures es[n].Accept? && now.free > 0 ==> next.main.Acquired?
    ensures es[n].Finish? ==> next.main == now.main
    ensures es[n].Interrupt? && now.main.Starting? ==> next.main == Unwinding(InterruptedEarly)
    ensures es[n].Interrupt? && now.main.Started? ==> next.main == Unwinding(InterruptedLate)
    ensures es[n].StartRaises? ==> next.main == Unwinding(StartFailed)
    ensures es[n].EnterTry? ==> next.main.Starting?
    ensures es[n].ThreadBegins? ==> next.main.Started?
    ensures es[n].Returns? ==> next.main.Serving?
  {
    hide ReadStep, Answered, Deliver, Run;
    PrefixSteps(s, es, n + 1);
    assert es[..n + 1][..n] == es[..n];
    SlotsStep(now, es[n]);
    m, next := n + 1, Next(now, es[n]);
  }

  lemma AlongAll(s: Server, es: seq<Event>, n: nat, now: Server)
    requires Along(s, es, n, now) && n == |es|
    ensures Steps(s, es) == Some(now) && SlotsInv(now)
  {
    assert es[..n] == es;
  }

  lemma Starts(s: Server, es: seq<Event>, now: Server) returns (n: nat, next: Server)
    requires es != [] && Along(s, es, 1, now) && now.main.Acquired? && es[1..] == [EnterTry, ThreadBegins, Returns]
    ensures n == |es| && Along(s, es, n, next) && next.free == now.free && next.main == Serving
  {
    hide Along, Next, Enabled, Steps;
    assert es[1] == es[1..][0] && es[2] == es[1..][1] && es[3] == es[1..][2];
    n, next := Advance(s, es, 1, now);
    n, next := Advance(s, es, n, next);
    n, next := Advance(s, es, n, next);
  }

  /** From the acquire to the except clause. */
  lemma EntersExcept(s: Server, es: seq<Event>, now: Server, cause: Cause, tail: seq<Event>) returns (n: nat, next: Server)
    requires es != [] && Along(s, es, 1, now) && now.main.Acquired? && es[1..] == Enters(cause) + tail
    ensures Along(s, es, n, next) && next.free == now.free && next.main == Unwinding(cause) && n <= |es| && es[n..] == tail
  {
    hide Along, Next, Enabled, Steps;
    var enters := Enters(cause);
    assert forall i | 0 <= i < |enters| :: es[1 + i] == es[1..][i] == enters[i];
    n, next := Advance(s, es, 1, now);
    n, next := Advance(s, es, n, next);
    if cause.InterruptedLate? { n, next := Advance(s, es, n, next); }
    assert es[n..] == es[1..][|enters|..];
  }
}
