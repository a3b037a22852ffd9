/** scripts/dev-verification-mail.py, `Fixture.save`: a locked mailbox of at most 100 messages,
    each kept for an hour. Time is the monotonic clock, in seconds. */
module Mailbox {
  import opened Bytes
  import opened FiniteSets
  import opened MailSession

  const MAX_MESSAGES := 100
  const LIFETIME := 3600.0

  /** A stored file is named after a random UUID. */
  type Uuid = nat

  /** `owned` is the fixture's dictionary, `files` the output directory. */
  datatype Box = Box(owned: map<Uuid, real>, files: map<Uuid, seq<byte>>)

  /** What the file system does to one save: nothing, refuse to create, or fail after creating. */
  datatype Fault = NoFault | OpenFails | WriteFails(partial: seq<byte>)

  datatype Request = Request(now: real, name: Uuid, message: seq<byte>, fault: Fault)

  predicate Expired(created: real, now: real) { now - created >= LIFETIME }

  function Expire(b: Box, now: real): Box {
    Box(map n | n in b.owned && !Expired(b.owned[n], now) :: b.owned[n],
        map n | n in b.files && !(n in b.owned && Expired(b.owned[n], now)) :: b.files[n])
  }

  /** `save` with the clock at `now` and the fresh name the script drew. */
  function Deliver(b: Box, q: Request): (Box, Saved) {
    var c := Expire(b, q.now);
    if |c.owned| >= MAX_MESSAGES then (c, Full)
    else if q.name in c.files || q.fault.OpenFails? then (c, Raised)
    else if q.fault.WriteFails? then (c.(files := c.files[q.name := q.fault.partial]), Raised)
    else (Box(c.owned[q.name := q.now], c.files[q.name := q.message]), Accepted)
  }

  // ----- Runs -----

  datatype Entry = Entry(name: Uuid, time: real, message: seq<byte>)

  /** The mailbox after a run, every accepted message in order, and the names left behind by
      writes that failed after their file was created. */
  datatype History = History(box: Box, accepted: seq<Entry>, orphans: set<Uuid>)

  /** One save, as a step of a run. */
  function Step(h: History, q: Request): History {
    var (box, saved) := Deliver(h.box, q);
    History(box,
            if saved.Accepted? then h.accepted + [Entry(q.name, q.now, q.message)] else h.accepted,
            if LeavesOrphan(h.box, q) then h.orphans + {q.name} else h.orphans)
  }

  function Run(qs: seq<Request>): History {
    if qs == [] then History(Box(map[], map[]), [], {}) else Step(Run(qs[..|qs| - 1]), qs[|qs| - 1])
  }

  predicate LeavesOrphan(b: Box, q: Request) {
    var c := Expire(b, q.now);
    |c.owned| < MAX_MESSAGES && q.name !in c.files && q.fault.WriteFails?
  }

  ghost predicate ClockNeverFallsBack(qs: seq<Request>) {
    forall i, j | 0 <= i < j < |qs| :: qs[i].now <= qs[j].now
  }

  // ----- The invariant -----

  ghost predicate Sorted(es: seq<Entry>) {
    forall i, j | 0 <= i < j < |es| :: es[i].time <= es[j].time
  }

  /** The number of leading entries that have expired. */
  function Gone(es: seq<Entry>, now: real): (k: nat)
    ensures k <= |es|
    ensures forall i | 0 <= i < k :: Expired(es[i].time, now)
    ensures k < |es| ==> !Expired(es[k].time, now)
  {
    if es == [] || !Expired(es[0].time, now) then 0 else 1 + Gone(es[1..], now)
  }

  /** `owned` holds exactly the entries of `es`, under distinct names. */
  ghost predicate Holds(owned: map<Uuid, real>, es: seq<Entry>) {
    && (forall i | 0 <= i < |es| :: es[i].name in owned && owned[es[i].name] == es[i].time)
    && (forall i, j | 0 <= i < j < |es| :: es[i].name != es[j].name)
    && (forall n | n in owned :: exists i | 0 <= i < |es| :: es[i].name == n)
    && |owned| == |es|
  }

  /** At clock `now`, `owned` is exactly the accepted messages that have not expired. */
  ghost predicate OwnedIsLive(owned: map<Uuid, real>, es: seq<Entry>, now: real) {
    && Sorted(es)
    && (forall i | 0 <= i < |es| :: es[i].time <= now)
    && Holds(owned, es[Gone(es, now)..])
  }

  /** Each unexpired message is in its file; the other files are the orphans. */
  ghost predicate FilesMatch(b: Box, es: seq<Entry>, orphans: set<Uuid>, now: real) {
    && (forall i | Gone(es, now) <= i < |es| :: es[i].name in b.files && b.files[es[i].name] == es[i].message)
    && b.files.Keys == b.owned.Keys + orphans
    && b.owned.Keys !! orphans
  }

  /** What holds right after a save at clock `now`. */
  ghost predicate Inv(h: History, now: real) {
    && OwnedIsLive(h.box.owned, h.accepted, now)
    && FilesMatch(h.box, h.accepted, h.orphans, now)
    && |h.box.owned| <= MAX_MESSAGES
  }

  lemma GoneGrows(es: seq<Entry>, before: real, now: real)
    requires before <= now && Sorted(es)
    ensures Gone(es, before) <= Gone(es, now)
    ensures forall i | 0 <= i < |es| :: Expired(es[i].time, now) <==> i < Gone(es, now)
  {
    var k := Gone(es, now);
    assert k < |es| ==> !Expired(es[k].time, before);
  }

  /** Dropping the expired entries of a sorted list drops exactly its expired prefix. */
  lemma ExpireHolds(owned: map<Uuid, real>, es: seq<Entry>, k: nat, now: real, kept: map<Uuid, real>)
    requires Holds(owned, es) && k <= |es|
    requires forall i | 0 <= i < |es| :: Expired(es[i].time, now) <==> i < k
    requires forall n :: n in kept <==> n in owned && !Expired(owned[n], now)
    requires forall n | n in kept :: kept[n] == owned[n]
    ensures Holds(kept, es[k..])
  {
    forall n | n in kept ensures exists i | 0 <= i < |es[k..]| :: es[k..][i].name == n {
      var i :| 0 <= i < |es| && es[i].name == n;
      assert es[k..][i - k] == es[i];
    }
    CountNames(kept, es[k..]);
  }

  /** A map whose keys are the distinct names of a list has the list's length. */
  lemma {:induction false} CountNames(owned: map<Uuid, real>, es: seq<Entry>)
    requires forall i | 0 <= i < |es| :: es[i].name in owned
    requires forall i, j | 0 <= i < j < |es| :: es[i].name != es[j].name
    requires forall n | n in owned :: exists i | 0 <= i < |es| :: es[i].name == n
    ensures |owned| == |es|
  {
    if es == [] {
      assert owned == map[];
    } else {
      var front, last := es[..|es| - 1], es[|es| - 1];
      var rest := owned - {last.name};
      forall n | n in rest ensures exists i | 0 <= i < |front| :: front[i].name == n {
        var i :| 0 <= i < |es| && es[i].name == n;
        assert front[i] == es[i];
      }
      CountNames(rest, front);
      assert owned.Keys == rest.Keys + {last.name};
      assert |owned| == |owned.Keys| == |rest.Keys| + 1;
    }
  }

  /** The part of the entries still live at `before` that is live at `now`. */
  lemma LiveTail(es: seq<Entry>, before: real, now: real)
    requires before <= now && Sorted(es)
    ensures var a, b := Gone(es, before), Gone(es, now);
      && a <= b && es[a..][b - a..] == es[b..]
      && forall i | 0 <= i < |es[a..]| :: Expired(es[a..][i].time, now) <==> i < b - a
  {
    hide Gone;
    GoneGrows(es, before, now);
  }

  lemma OwnedAfterExpiry(h: History, before: real, now: real)
    requires OwnedIsLive(h.box.owned, h.accepted, before) && before <= now
    ensures OwnedIsLive(Expire(h.box, now).owned, h.accepted, now)
  {
    hide Gone, Holds, Expired, Sorted;
    var es := h.accepted;
    var a, b := Gone(es, before), Gone(es, now);
    LiveTail(es, before, now);
    ExpireHolds(h.box.owned, es[a..], b - a, now, Expire(h.box, now).owned);
  }

  lemma FilesAfterExpiry(h: History, before: real, now: real)
    requires Inv(h, before) && before <= now
    ensures FilesMatch(Expire(h.box, now), h.accepted, h.orphans, now)
  {
    hide Gone, Expired;
    var es := h.accepted;
    var a, b := Gone(es, before), Gone(es, now);
    GoneGrows(es, before, now);
    LiveAreOwned(h.box.owned, es, a);
    hide Holds, Sorted;
    forall i | b <= i < |es|
      ensures es[i].name in Expire(h.box, now).files && Expire(h.box, now).files[es[i].name] == es[i].message
    {
      assert h.box.owned[es[i].name] == es[i].time;
    }
    KeysAfterExpiry(h.box, h.orphans, now);
  }

  lemma LiveAreOwned(owned: map<Uuid, real>, es: seq<Entry>, a: nat)
    requires a <= |es| && Holds(owned, es[a..])
    ensures forall i | a <= i < |es| :: es[i].name in owned && owned[es[i].name] == es[i].time
  {
    assert forall i | a <= i < |es| :: es[a..][i - a] == es[i];
  }

  lemma KeysAfterExpiry(b: Box, orphans: set<Uuid>, now: real)
    requires b.files.Keys == b.owned.Keys + orphans && b.owned.Keys !! orphans
    ensures var c := Expire(b, now); c.files.Keys == c.owned.Keys + orphans && c.owned.Keys !! orphans
  {
    hide Expired;
  }

  /** Expiry re-establishes the invariant at the later time. */
  lemma ExpireKeeps(h: History, before: real, now: real)
    requires Inv(h, before) && before <= now
    ensures Inv(h.(box := Expire(h.box, now)), now)
  {
    OwnedAfterExpiry(h, before, now);
    FilesAfterExpiry(h, before, now);
    hide OwnedIsLive, FilesMatch;
    KeptCount(h.box.owned, Expire(h.box, now).owned);
  }

  lemma KeptCount(owned: map<Uuid, real>, kept: map<Uuid, real>)
    requires kept.Keys <= owned.Keys
    ensures |kept| <= |owned|
  {
    SubsetSize(kept.Keys, owned.Keys);
    assert |kept| == |kept.Keys| && |owned| == |owned.Keys|;
  }

  lemma {:induction false} GoneAppend(es: seq<Entry>, e: Entry)
    ensures Gone(es + [e], e.time) == Gone(es, e.time)
  {
    if es == [] {
      assert Gone([e][1..], e.time) == 0;
    } else {
      assert (es + [e])[1..] == es[1..] + [e];
      if Expired(es[0].time, e.time) { GoneAppend(es[1..], e); }
    }
  }

  lemma HoldsAppend(owned: map<Uuid, real>, es: seq<Entry>, e: Entry)
    requires Holds(owned, es) && e.name !in owned
    ensures Holds(owned[e.name := e.time], es + [e])
  {
    var es' := es + [e];
    forall n | n in owned || n == e.name ensures exists i | 0 <= i < |es'| :: es'[i].name == n {
      if n == e.name {
        assert es'[|es|] == e;
      } else {
        var i :| 0 <= i < |es| && es[i].name == n;
        assert es'[i] == es[i];
      }
    }
  }

  lemma OwnedAfterAccept(owned: map<Uuid, real>, es: seq<Entry>, e: Entry)
    requires OwnedIsLive(owned, es, e.time) && e.name !in owned
    ensures OwnedIsLive(owned[e.name := e.time], es + [e], e.time)
  {
    var k := Gone(es, e.time);
    GoneAppend(es, e);
    hide Holds, Gone;
    assert (es + [e])[k..] == es[k..] + [e];
    HoldsAppend(owned, es[k..], e);
  }

  lemma FilesAfterAccept(b: Box, es: seq<Entry>, orphans: set<Uuid>, e: Entry)
    requires FilesMatch(b, es, orphans, e.time) && e.name !in b.files
    ensures FilesMatch(Box(b.owned[e.name := e.time], b.files[e.name := e.message]), es + [e], orphans, e.time)
  {
    GoneAppend(es, e);
    hide Gone;
    var files := b.files[e.name := e.message];
    forall i | Gone(es, e.time) <= i < |es + [e]|
      ensures (es + [e])[i].name in files && files[(es + [e])[i].name] == (es + [e])[i].message
    {
      if i < |es| { assert (es + [e])[i] == es[i]; }
    }
    assert files.Keys == b.files.Keys + {e.name};
    assert b.owned[e.name := e.time].Keys == b.owned.Keys + {e.name};
  }

  /** Adding an accepted message keeps the invariant. */
  lemma AcceptKeeps(h: History, e: Entry)
    requires Inv(h, e.time) && e.name !in h.box.files && |h.box.owned| < MAX_MESSAGES
    ensures Inv(History(Box(h.box.owned[e.name := e.time], h.box.files[e.name := e.message]), h.accepted + [e], h.orphans), e.time)
  {
    assert h.box.owned.Keys <= h.box.files.Keys;
    FilesAfterAccept(h.box, h.accepted, h.orphans, e);
    hide FilesMatch;
    assert e.name !in h.box.owned;
    OwnedAfterAccept(h.box.owned, h.accepted, e);
    hide OwnedIsLive;
    assert |h.box.owned[e.name := e.time]| == |h.box.owned| + 1;
  }

  lemma FilesAfterOrphan(b: Box, es: seq<Entry>, orphans: set<Uuid>, name: Uuid, partial: seq<byte>, now: real)
    requires FilesMatch(b, es, orphans, now) && name !in b.files
    ensures FilesMatch(b.(files := b.files[name := partial]), es, orphans + {name}, now)
  {
    hide Gone;
    var files := b.files[name := partial];
    forall i | Gone(es, now) <= i < |es|
      ensures es[i].name in files && files[es[i].name] == es[i].message
    {
    }
    assert name !in b.owned.Keys;
    assert files.Keys == b.files.Keys + {name};
  }

  lemma OrphanKeeps(h: History, name: Uuid, partial: seq<byte>, now: real)
    requires Inv(h, now) && name !in h.box.files
    ensures Inv(History(h.box.(files := h.box.files[name := partial]), h.accepted, h.orphans + {name}), now)
  {
    hide OwnedIsLive, FilesMatch;
    FilesAfterOrphan(h.box, h.accepted, h.orphans, name, partial, now);
  }

  lemma StepKeeps(h: History, before: real, q: Request)
    requires Inv(h, before) && before <= q.now
    ensures Inv(Step(h, q), q.now)
  {
    ExpireKeeps(h, before, q.now);
    var c := Expire(h.box, q.now);
    var h' := h.(box := c);
    hide Inv;
    if |c.owned| >= MAX_MESSAGES || q.name in c.files || q.fault.OpenFails? {
      assert Step(h, q) == h';
    } else if q.fault.WriteFails? {
      OrphanKeeps(h', q.name, q.fault.partial, q.now);
    } else {
      AcceptKeeps(h', Entry(q.name, q.now, q.message));
    }
  }

  /** Every run with a clock that never falls back keeps the invariant. */
  lemma {:induction false} RunKeeps(qs: seq<Request>)
    requires qs != [] && ClockNeverFallsBack(qs)
    ensures Inv(Run(qs), qs[|qs| - 1].now)
  {
    var front, q := qs[..|qs| - 1], qs[|qs| - 1];
    if front == [] {
      StartKeeps(q.now);
      StepKeeps(Run(front), q.now, q);
    } else {
      RunKeeps(front);
      hide Inv, Step;
      StepKeeps(Run(front), front[|front| - 1].now, q);
    }
  }

  lemma StartKeeps(now: real)
    ensures Inv(Run([]), now)
  {
  }

  // ----- The promises -----

  /** Any two accepted messages a hundred apart are at least an hour apart. */
  lemma {:induction false} HundredPerHour(qs: seq<Request>, i: nat)
    requires ClockNeverFallsBack(qs)
    requires i + MAX_MESSAGES < |Run(qs).accepted|
    ensures Run(qs).accepted[i + MAX_MESSAGES].time - Run(qs).accepted[i].time >= LIFETIME
  {
    var front, q := qs[..|qs| - 1], qs[|qs| - 1];
    if i + MAX_MESSAGES < |Run(front).accepted| {
      HundredPerHour(front, i);
    } else {
      RunKeeps(front);
      AcceptedIsSpaced(Run(front), front[|front| - 1].now, q, i);
    }
  }

  lemma AcceptedIsSpaced(h: History, before: real, q: Request, i: nat)
    requires Inv(h, before) && before <= q.now
    requires |h.accepted| <= i + MAX_MESSAGES < |Step(h, q).accepted|
    ensures Step(h, q).accepted[i + MAX_MESSAGES].time - Step(h, q).accepted[i].time >= LIFETIME
  {
    OwnedAfterExpiry(h, before, q.now);
    assert |Expire(h.box, q.now).owned| < MAX_MESSAGES;
    assert |h.accepted[Gone(h.accepted, q.now)..]| < MAX_MESSAGES;
    assert Expired(h.accepted[i].time, q.now);
  }

  /** At most a hundred messages are accepted in any window of an hour. */
  lemma WindowBound(qs: seq<Request>, from: real, window: set<int>)
    requires ClockNeverFallsBack(qs)
    requires forall i | i in window :: 0 <= i < |Run(qs).accepted| && from <= Run(qs).accepted[i].time < from + LIFETIME
    ensures |window| <= MAX_MESSAGES
  {
    if window != {} {
      var first := Least(window);
      assert qs != [];
      hide Run;
      forall i | i in window ensures first <= i < first + MAX_MESSAGES {
        if first + MAX_MESSAGES < |Run(qs).accepted| { HundredPerHour(qs, first); }
        RunKeeps(qs);
      }
      SubsetSize(window, Interval(first, MAX_MESSAGES));
    }
  }

  /** After expiry the mailbox counts the accepted messages younger than an hour. */
  lemma LiveCount(h: History, before: real, now: real)
    requires OwnedIsLive(h.box.owned, h.accepted, before) && before <= now
    ensures |Expire(h.box, now).owned| == |h.accepted| - Gone(h.accepted, now)
    ensures forall i | 0 <= i < |h.accepted| :: Expired(h.accepted[i].time, now) <==> i < Gone(h.accepted, now)
  {
    OwnedAfterExpiry(h, before, now);
    GoneGrows(h.accepted, before, now);
  }

  lemma RefusedIn(h: History, before: real, q: Request)
    requires OwnedIsLive(h.box.owned, h.accepted, before) && before <= q.now
    ensures Deliver(h.box, q).1 == Full <==>
      |h.accepted| >= MAX_MESSAGES &&
      forall i | |h.accepted| - MAX_MESSAGES <= i < |h.accepted| :: q.now - h.accepted[i].time < LIFETIME
  {
    LiveCount(h, before, q.now);
    hide OwnedIsLive, Gone, Expire;
    var k := Gone(h.accepted, q.now);
    assert k > 0 ==> Expired(h.accepted[k - 1].time, q.now);
  }

  /** A save is refused exactly when a hundred accepted messages are younger than an hour. */
  lemma RefusedIff(qs: seq<Request>, q: Request)
    requires ClockNeverFallsBack(qs + [q])
    ensures Deliver(Run(qs).box, q).1 == Full <==>
      |Run(qs).accepted| >= MAX_MESSAGES &&
      forall i | |Run(qs).accepted| - MAX_MESSAGES <= i < |Run(qs).accepted| ::
        q.now - Run(qs).accepted[i].time < LIFETIME
  {
    if qs == [] {
      StartKeeps(q.now);
      RefusedIn(Run(qs), q.now, q);
    } else {
      assert forall i | 0 <= i < |qs| :: (qs + [q])[i] == qs[i];
      assert (qs + [q])[|qs|] == q;
      RunKeeps(qs);
      hide Run, Deliver;
      RefusedIn(Run(qs), qs[|qs| - 1].now, q);
    }
  }

  /** The accepted messages less than an hour old, by their place in the run. */
  function Young(es: seq<Entry>, now: real): set<int> {
    set i | 0 <= i < |es| && now - es[i].time < 3600.0
  }

  predicate IsYoung(es: seq<Entry>, now: real, name: Uuid) {
    exists i | i in Young(es, now) :: es[i].name == name
  }

  /** Each young message is owned under its time and is in its file. */
  ghost predicate KeepsYoung(es: seq<Entry>, now: real, b: Box) {
    forall i | i in Young(es, now) ::
      && es[i].name in b.owned && b.owned[es[i].name] == es[i].time
      && es[i].name in b.files && b.files[es[i].name] == es[i].message
  }

  /** The mailbox holds exactly the young messages, and the orphans. */
  ghost predicate HoldsYoung(es: seq<Entry>, now: real, b: Box, orphans: set<Uuid>) {
    && KeepsYoung(es, now, b)
    && (forall name :: name in b.owned <==> IsYoung(es, now, name))
    && (forall name :: name in b.files <==> IsYoung(es, now, name) || name in orphans)
  }

  lemma OwnedIsYoung(h: History, now: real)
    requires Inv(h, now)
    requires forall i | 0 <= i < |h.accepted| :: Expired(h.accepted[i].time, now) <==> i < Gone(h.accepted, now)
    ensures |Young(h.accepted, now)| == |h.box.owned| && HoldsYoung(h.accepted, now, h.box, h.orphans)
  {
    hide Gone, Young, Sorted, Expired, Holds, IsYoung, KeepsYoung;
    var es := h.accepted;
    var k := Gone(es, now);
    YoungIsLive(es, now, k);
    LiveAreOwned(h.box.owned, es, k);
    LiveAreNames(h.box.owned, es, now, k);
    LiveAreKept(h.box, es, now, k);
    assert |h.box.owned| == |es[k..]| by { HoldsSize(h.box.owned, es[k..]); }
    assert forall name :: name in h.box.files <==> name in h.box.owned || name in h.orphans;
  }

  lemma HoldsSize(owned: map<Uuid, real>, es: seq<Entry>)
    requires Holds(owned, es)
    ensures |owned| == |es|
  {
  }

  lemma LiveAreNames(owned: map<Uuid, real>, es: seq<Entry>, now: real, k: nat)
    requires k <= |es| && Holds(owned, es[k..]) && forall i :: i in Young(es, now) <==> k <= i < |es|
    ensures forall name :: name in owned <==> IsYoung(es, now, name)
  {
    hide Young;
    assert forall i | k <= i < |es| :: es[k..][i - k] == es[i];
    forall name | name in owned ensures IsYoung(es, now, name) {
      var i :| 0 <= i < |es[k..]| && es[k..][i].name == name;
      assert k + i in Young(es, now) && es[k + i].name == name;
    }
  }

  lemma LiveAreKept(b: Box, es: seq<Entry>, now: real, k: nat)
    requires k <= |es| && forall i :: i in Young(es, now) <==> k <= i < |es|
    requires forall i | k <= i < |es| :: es[i].name in b.owned && b.owned[es[i].name] == es[i].time
    requires forall i | k <= i < |es| :: es[i].name in b.files && b.files[es[i].name] == es[i].message
    ensures KeepsYoung(es, now, b)
  {
    hide Young;
  }

  lemma YoungIsLive(es: seq<Entry>, now: real, k: nat)
    requires k <= |es|
    requires forall i | 0 <= i < |es| :: Expired(es[i].time, now) <==> i < k
    ensures |Young(es, now)| == |es| - k
    ensures forall i :: i in Young(es, now) <==> k <= i < |es|
  {
    assert Young(es, now) == Interval(k, |es| - k);
  }

  /** Exactly when a save is accepted, refused, or raises, and what is in the mailbox after it. */
  ghost predicate Saves(h: History, q: Request, b: Box, saved: Saved) {
    var es, now := h.accepted, q.now;
    var room := |Young(es, now)| < 100;
    var unused := !IsYoung(es, now, q.name) && q.name !in h.orphans;
    var broken := room && q.fault.WriteFails? && unused;
    && (saved == Full <==> !room)
    && (saved == Accepted <==> room && q.fault == NoFault && unused)
    && (saved == Raised <==> room && !(q.fault == NoFault && unused))
    && KeepsYoung(es, now, b)
    && (forall name :: name in b.owned <==> IsYoung(es, now, name) || (saved == Accepted && name == q.name))
    && (saved == Accepted ==> b.owned[q.name] == now && q.name in b.files && b.files[q.name] == q.message)
    && (broken ==> q.name in b.files && b.files[q.name] == q.fault.partial)
    && (forall name :: name in b.files <==>
          IsYoung(es, now, name) || name in h.orphans || ((saved == Accepted || broken) && name == q.name))
  }

  lemma KeepsOthers(es: seq<Entry>, now: real, b: Box, name: Uuid, owned: map<Uuid, real>, text: seq<byte>)
    requires KeepsYoung(es, now, b) && !IsYoung(es, now, name)
    requires owned == b.owned || owned == b.owned[name := now]
    ensures KeepsYoung(es, now, Box(owned, b.files[name := text]))
  {
    hide Young;
  }

  lemma SavesFrom(h: History, before: real, q: Request)
    requires Inv(h, before) && before <= q.now
    ensures Saves(h, q, Deliver(h.box, q).0, Deliver(h.box, q).1)
  {
    hide Young, KeepsYoung, IsYoung, Inv, Expire;
    var es, now, c := h.accepted, q.now, Expire(h.box, q.now);
    ExpireKeeps(h, before, now);
    GoneAtExpiry(h, before, now);
    OwnedIsYoung(h.(box := c), now);
    if q.name !in c.files {
      if q.fault.WriteFails? { KeepsOthers(es, now, c, q.name, c.owned, q.fault.partial); }
      KeepsOthers(es, now, c, q.name, c.owned[q.name := now], q.message);
    }
  }

  lemma GoneAtExpiry(h: History, before: real, now: real)
    requires Inv(h, before) && before <= now
    ensures forall i | 0 <= i < |h.accepted| :: Expired(h.accepted[i].time, now) <==> i < Gone(h.accepted, now)
  {
    GoneGrows(h.accepted, before, now);
  }

  /** After any run, for any further save, on every fault. */
  lemma SaveIff(qs: seq<Request>, q: Request)
    requires ClockNeverFallsBack(qs + [q])
    ensures Saves(Run(qs), q, Deliver(Run(qs).box, q).0, Deliver(Run(qs).box, q).1)
  {
    ClockPrefix(qs, q);
    if qs == [] { StartKeeps(q.now); } else { RunKeeps(qs); }
    hide Run, Inv, Deliver, Saves;
    SavesFrom(Run(qs), if qs == [] then q.now else qs[|qs| - 1].now, q);
  }

  /** The directory holds exactly the owned messages and the orphans of failed writes, and never
      more than a hundred owned ones; so `owned` is the directory exactly when no write has
      failed after creating its file. */
  lemma DirectoryIsOwned(qs: seq<Request>)
    requires ClockNeverFallsBack(qs)
    ensures var h := Run(qs);
      h.box.files.Keys == h.box.owned.Keys + h.orphans && h.box.owned.Keys !! h.orphans &&
      |h.box.owned| <= MAX_MESSAGES &&
      (h.box.files.Keys == h.box.owned.Keys <==> forall k | 0 <= k < |qs| :: !LeavesOrphan(Run(qs[..k]).box, qs[k]))
  {
    if qs != [] { RunKeeps(qs); }
    OrphansIff(qs);
  }

  lemma {:induction false} OrphansIff(qs: seq<Request>)
    ensures Run(qs).orphans == {} <==> forall k | 0 <= k < |qs| :: !LeavesOrphan(Run(qs[..k]).box, qs[k])
  {
    hide Run, LeavesOrphan, Deliver;
    OrphansStep(qs);
    if qs != [] {
      var front := qs[..|qs| - 1];
      OrphansIff(front);
      forall k | 0 <= k < |front| ensures LeavesOrphan(Run(front[..k]).box, front[k]) == LeavesOrphan(Run(qs[..k]).box, qs[k]) {
        assert front[..k] == qs[..k];
      }
    }
  }

  lemma OrphansStep(qs: seq<Request>)
    ensures if qs == [] then Run(qs).orphans == {}
            else Run(qs).orphans == {} <==>
              Run(qs[..|qs| - 1]).orphans == {} && !LeavesOrphan(Run(qs[..|qs| - 1]).box, qs[|qs| - 1])
  {
    hide LeavesOrphan, Deliver;
  }

  /** A write that fails after the create leaves such a file. */
  lemma OrphanArises(q: Request)
    requires q.fault.WriteFails?
    ensures var h := Run([q]);
      h.orphans == {q.name} && h.box.files == map[q.name := q.fault.partial] && h.box.owned == map[] &&
      h.box.files.Keys != h.box.owned.Keys
  {
    assert [q][..0] == [];
    assert Expire(Run([]).box, q.now) == Box(map[], map[]);
    assert q.name in Run([q]).box.files.Keys;
  }

  lemma OrphanStep(h: History, before: real, q: Request, name: Uuid)
    requires Inv(h, before) && before <= q.now && name in h.orphans
    ensures name in Step(h, q).orphans && name in h.box.files
    ensures name in Step(h, q).box.files && Step(h, q).box.files[name] == h.box.files[name]
  {
    FilesAfterExpiry(h, before, q.now);
    hide OwnedIsLive, Gone;
  }

  lemma OrphanIsAFile(h: History, now: real, name: Uuid)
    requires Inv(h, now) && name in h.orphans
    ensures name in h.box.files && name !in h.box.owned
  {
  }

  lemma RunStep(qs: seq<Request>, q: Request)
    ensures Run(qs + [q]) == Step(Run(qs), q)
    ensures Run([]).orphans == {}
  {
    assert (qs + [q])[..|qs|] == qs;
  }

  lemma ClockPrefix(qs: seq<Request>, q: Request)
    requires ClockNeverFallsBack(qs + [q])
    ensures ClockNeverFallsBack(qs) && (qs != [] ==> qs[|qs| - 1].now <= q.now)
  {
    var all := qs + [q];
    assert all[|qs|] == q && forall i | 0 <= i < |qs| :: all[i] == qs[i];
  }

  /** No later save ever owns, overwrites or removes it. */
  lemma {:induction false} OrphanStays(qs: seq<Request>, more: seq<Request>, name: Uuid)
    requires ClockNeverFallsBack(qs + more) && name in Run(qs).orphans
    ensures var h := Run(qs + more);
      name in Run(qs).box.files && name in h.orphans && name !in h.box.owned &&
      name in h.box.files && h.box.files[name] == Run(qs).box.files[name]
  {
    hide Run, Step, Inv, ClockNeverFallsBack;
    RunStep([], Request(0.0, 0, [], NoFault));
    var all := qs + more;
    RunKeeps(all);
    if more == [] {
      assert all == qs;
      OrphanIsAFile(Run(qs), qs[|qs| - 1].now, name);
    } else {
      var front, q := qs + more[..|more| - 1], more[|more| - 1];
      assert all == front + [q];
      ClockPrefix(front, q);
      OrphanStays(qs, more[..|more| - 1], name);
      RunKeeps(front);
      OrphanStep(Run(front), front[|front| - 1].now, q, name);
      RunStep(front, q);
      OrphanIsAFile(Run(all), q.now, name);
    }
  }

  // ----- The class -----

  /** The shared mailbox of `Fixture`. `Save` runs under the lock, so it is one atomic step. */
  class Fixture {
    var owned: map<Uuid, real>
    var files: map<Uuid, seq<byte>>

    ghost function Contents(): Box
      reads this
    {
      Box(owned, files)
    }

    constructor ()
      ensures Contents() == Run([]).box
    {
      owned, files := map[], map[];
    }

    /** The loop over the dictionary's items that unlinks what has expired. */
    method Prune(now: real)
      modifies this
      ensures Contents() == Expire(old(Contents()), now)
    {
      ghost var was := files;
      var items := owned;
      var pending := items.Keys;
      while pending != {}
        invariant pending <= items.Keys
        invariant owned == map n | n in items && (n in pending || !Expired(items[n], now)) :: items[n]
        invariant files == map n | n in was && !(n in items && n !in pending && Expired(items[n], now)) :: was[n]
        decreases pending
      {
        var name :| name in pending;
        pending := pending - {name};
        if Expired(items[name], now) {
          files := files - {name};
          owned := owned - {name};
        }
      }
    }

    method Save(q: Request) returns (saved: Saved)
      modifies this
      ensures (Contents(), saved) == Deliver(old(Contents()), q)
    {
      Prune(q.now);
      hide Expire;
      if |owned| >= MAX_MESSAGES { return Full; }
      if q.name in files || q.fault.OpenFails? { return Raised; }
      if q.fault.WriteFails? {
        files := files[q.name := q.fault.partial];
        return Raised;
      }
      files := files[q.name := q.message];
      owned := owned[q.name := q.now];
      return Accepted;
    }
  }
}
