/** scripts/extract-staff-grouped-options-reference.py, extract-staff-isolated-options-reference.py
    and extract-staff-action-snapshots-reference.py: the moderation actions on one post and the
    audit rows they leave. */
module StaffAudit {
  import opened Wrappers

  const PREFIX := "SPOILER<>"

  /** Five flags: sticky 1, permasage 2, closed 4, permaage 8, undead 16. */
  type Mask = m: bv8 | m < 32

  const PERMAAGE: bv8 := 8

  datatype Post = Post(no: int, board: string, name: string, sub: string, com: string,
                       filename: string, ext: string, mask: Mask)

  /** The grouped form; an absent field is None. Values are canonical 0 and 1. */
  datatype Form = Form(submit: string, rank: Option<int>, sticky: Option<bool>, permasage: Option<bool>,
                       closed: Option<bool>, permaage: Option<bool>, undead: Option<bool>)

  datatype Isolated = Close | Reopen | Permasage | Unpermasage

  /** `allowed`: the actor may change permaage (manager and above, or developer). */
  datatype Action =
    | Grouped(form: Form, allowed: bool)
    | One(option: Isolated)
    | Spoiler(on: bool)

  datatype Request = Request(action: Action, actor: string)

  /** One audit row, with the post's content before the action. */
  datatype Entry = Entry(oldmask: bv8, newmask: bv8, postno: int, board: string, name: string, sub: string,
                         com: string, filename: string, admin: string)

  // ----- Masks -----

  function Bit(field: Option<bool>, bit: bv8): bv8 { if field == Some(true) then bit else 0 }

  /** intval of each field; an omitted one counts as 0. */
  function Desired(f: Form): Mask {
    Bit(f.sticky, 1) | Bit(f.permasage, 2) | Bit(f.closed, 4) | Bit(f.permaage, 8) | Bit(f.undead, 16)
  }

  /** `post(mask, rank)`: the full form for a mask. */
  function FormOf(mask: Mask, rank: int): Form {
    Form("Set Options", Some(rank), Some(mask & 1 != 0), Some(mask & 2 != 0), Some(mask & 4 != 0),
         Some(mask & 8 != 0), Some(mask & 16 != 0))
  }

  /** Each bit of the requested mask is set exactly by its own field; an omitted field clears it. */
  lemma DesiredIs(f: Form)
    ensures Desired(f) & 1 != 0 <==> f.sticky == Some(true)
    ensures Desired(f) & 2 != 0 <==> f.permasage == Some(true)
    ensures Desired(f) & 4 != 0 <==> f.closed == Some(true)
    ensures Desired(f) & 8 != 0 <==> f.permaage == Some(true)
    ensures Desired(f) & 16 != 0 <==> f.undead == Some(true)
  {
    var a, b, c, d, e := Bit(f.sticky, 1), Bit(f.permasage, 2), Bit(f.closed, 4), Bit(f.permaage, 8), Bit(f.undead, 16);
    UnionBits(a, b, c, d, e);
  }

  lemma UnionBits(a: bv8, b: bv8, c: bv8, d: bv8, e: bv8)
    requires a in {0, 1} && b in {0, 2} && c in {0, 4} && d in {0, 8} && e in {0, 16}
    ensures (a | b | c | d | e) & 1 == a && (a | b | c | d | e) & 2 == b && (a | b | c | d | e) & 4 == c
    ensures (a | b | c | d | e) & 8 == d && (a | b | c | d | e) & 16 == e
  {
  }

  lemma FormRoundTrip(mask: Mask, rank: int)
    ensures Desired(FormOf(mask, rank)) == mask
  {
    assert mask == (mask & 1) | (mask & 2) | (mask & 4) | (mask & 8) | (mask & 16);
    assert mask & 1 != 0 ==> mask & 1 == 1;
    assert mask & 2 != 0 ==> mask & 2 == 2;
    assert mask & 4 != 0 ==> mask & 4 == 4;
    assert mask & 8 != 0 ==> mask & 8 == 8;
    assert mask & 16 != 0 ==> mask & 16 == 16;
  }

  /** What is stored for a requested mask: permaage keeps its saved value unless allowed. */
  function Effective(saved: Mask, desired: Mask, allowed: bool): Mask {
    if allowed then desired else (desired & !PERMAAGE) | (saved & PERMAAGE)
  }

  function IsolatedMask(saved: Mask, option: Isolated): Mask {
    match option
    case Close => saved | 4
    case Reopen => saved & !(4 as bv8)
    case Permasage => saved | 2
    case Unpermasage => saved & !(2 as bv8)
  }

  predicate RankRejected(f: Form) {
    f.sticky == Some(true) && f.rank.Some? && (f.rank.value < 0 || f.rank.value > 60)
  }

  // ----- Actions -----

  predicate IsSpoiler(p: Post) { PREFIX <= p.sub }

  function Snapshot(p: Post, oldmask: bv8, newmask: bv8, actor: string): Entry {
    Entry(oldmask, newmask, p.no, p.board, p.name, p.sub, p.com, p.filename + p.ext, actor)
  }

  /** Stores a mask, with an audit row only when it changes. */
  function Store(p: Post, mask: Mask, actor: string): (Post, Option<Entry>) {
    (p.(mask := mask), if mask == p.mask then None else Some(Snapshot(p, p.mask, mask, actor)))
  }

  function Apply(p: Post, r: Request): (Post, Option<Entry>) {
    match r.action
    case Grouped(form, allowed) =>
      if form.submit == "" || RankRejected(form) then (p, None)
      else Store(p, Effective(p.mask, Desired(form), allowed), r.actor)
    case One(option) => Store(p, IsolatedMask(p.mask, option), r.actor)
    case Spoiler(on) =>
      if on == IsSpoiler(p) then (p, None)
      else (p.(sub := if on then PREFIX + p.sub else p.sub[|PREFIX|..]),
            Some(Snapshot(p, 0, if on then 129 else 130, r.actor)))
  }

  function Run(p: Post, rs: seq<Request>): (Post, seq<Entry>) {
    if rs == [] then (p, [])
    else
      var (q, log) := Run(p, rs[..|rs| - 1]);
      var (next, entry) := Apply(q, rs[|rs| - 1]);
      (next, if entry.None? then log else log + [entry.value])
  }

  // ----- Reading the log back -----

  /** What the log alone says of the post. */
  datatype View = View(mask: bv8, spoiler: bool)

  predicate IsSpoilerEntry(e: Entry) { e.newmask >= 32 }

  function ReplayOne(v: View, e: Entry): View {
    if e.newmask == 129 then v.(spoiler := true)
    else if e.newmask == 130 then v.(spoiler := false)
    else v.(mask := e.newmask)
  }

  function Replay(v: View, log: seq<Entry>): View {
    if log == [] then v else ReplayOne(Replay(v, log[..|log| - 1]), log[|log| - 1])
  }

  /** The subject in a given spoiler state. */
  function Subject(base: string, spoiler: bool): string { if spoiler then PREFIX + base else base }

  /** The row is a change, and its preimage is the state before it of a post with the content of `p`. */
  ghost predicate RowFits(before: View, p: Post, base: string, e: Entry) {
    && e.sub == Subject(base, before.spoiler)
    && e.postno == p.no && e.board == p.board && e.name == p.name && e.com == p.com && e.filename == p.filename + p.ext
    && ReplayOne(before, e) != before
    && (IsSpoilerEntry(e) ==> e.oldmask == 0 && e.newmask in {129, 130})
    && (!IsSpoilerEntry(e) ==> e.oldmask == before.mask)
  }

  /** Every row fits what replaying the earlier rows gives. */
  ghost predicate Chained(v: View, p: Post, base: string, log: seq<Entry>) {
    forall k | 0 <= k < |log| :: RowFits(Replay(v, log[..k]), p, base, log[k])
  }

  ghost predicate SameContent(p: Post, q: Post) {
    p.no == q.no && p.board == q.board && p.name == q.name && p.com == q.com && p.filename == q.filename && p.ext == q.ext
  }

  lemma SubjectState(base: string, spoiler: bool)
    requires !(PREFIX <= base)
    ensures PREFIX <= Subject(base, spoiler) <==> spoiler
    ensures spoiler ==> Subject(base, spoiler)[|PREFIX|..] == base
  {
  }

  /** The post is what `v` says of it. */
  ghost predicate Agrees(p: Post, v: View, base: string) {
    p.sub == Subject(base, v.spoiler) && p.mask == v.mask
  }

  function ReplayOptional(v: View, e: Option<Entry>): View { if e.None? then v else ReplayOne(v, e.value) }

  /** One request, against one step of replay. */
  lemma ApplyReplays(p: Post, r: Request, base: string, v: View)
    requires !(PREFIX <= base) && Agrees(p, v, base)
    ensures var (q, entry) := Apply(p, r);
      && Agrees(q, ReplayOptional(v, entry), base) && SameContent(p, q)
      && (entry.None? ==> q == p)
      && (entry.Some? ==> RowFits(v, p, base, entry.value))
  {
    SubjectState(base, v.spoiler);
    hide Desired, Effective, IsolatedMask;
  }

  lemma {:induction false} ReplayAppend(v: View, log: seq<Entry>, e: Entry)
    ensures Replay(v, log + [e]) == ReplayOne(Replay(v, log), e)
  {
    assert (log + [e])[..|log|] == log;
  }

  lemma ChainedAppend(v: View, p: Post, base: string, log: seq<Entry>, e: Entry)
    requires Chained(v, p, base, log) && RowFits(Replay(v, log), p, base, e)
    ensures Chained(v, p, base, log + [e])
  {
    hide RowFits, Replay;
    var longer := log + [e];
    assert longer[..|log|] == log;
    assert forall k | 0 <= k < |log| :: longer[..k] == log[..k];
  }

  lemma RowOfSame(v: View, p: Post, q: Post, base: string, e: Entry)
    requires RowFits(v, q, base, e) && SameContent(p, q)
    ensures RowFits(v, p, base, e)
  {
  }

  lemma {:induction false} RunReplays(p: Post, rs: seq<Request>, base: string, start: View)
    requires !(PREFIX <= base) && Agrees(p, start, base)
    ensures var (q, log) := Run(p, rs);
      Agrees(q, Replay(start, log), base) && SameContent(p, q) && Chained(start, p, base, log)
  {
    hide Apply, Agrees, ReplayOne, RowFits;
    if rs != [] {
      var front, r := rs[..|rs| - 1], rs[|rs| - 1];
      RunReplays(p, front, base, start);
      var (q, log) := Run(p, front);
      ApplyReplays(q, r, base, Replay(start, log));
      var entry := Apply(q, r).1;
      if entry.Some? {
        assert RowFits(Replay(start, log), p, base, entry.value) by { RowOfSame(Replay(start, log), p, q, base, entry.value); }
        ReplayAppend(start, log, entry.value);
        ChainedAppend(start, p, base, log, entry.value);
      }
    }
  }

  /** Over any run, replaying the audit log alone gives the post's mask and spoiler state; every
      row is a change and carries the true preimage, content included; the subject is always the original with or
      without one prefix; nothing else of the post ever changes. */
  lemma LogIsHistory(p: Post, rs: seq<Request>, base: string, spoiler: bool)
    requires !(PREFIX <= base) && p.sub == Subject(base, spoiler)
    ensures var (q, log) := Run(p, rs);
      && Replay(View(p.mask, spoiler), log) == View(q.mask, IsSpoiler(q))
      && q.sub == Subject(base, IsSpoiler(q)) && SameContent(p, q)
      && Chained(View(p.mask, spoiler), p, base, log)
  {
    RunReplays(p, rs, base, View(p.mask, spoiler));
    SubjectState(base, Replay(View(p.mask, spoiler), Run(p, rs).1).spoiler);
  }

  /** The one assumption is exact: a subject that already starts with the prefix makes the log
      and the post disagree after the first "off". */
  lemma ReplayNeedsPlainSubject(p: Post, base: string)
    requires p.sub == Subject(base, true)
    ensures (forall rs: seq<Request> ::
               Replay(View(p.mask, true), Run(p, rs).1) == View(Run(p, rs).0.mask, IsSpoiler(Run(p, rs).0)))
       <==> !(PREFIX <= base)
  {
    if !(PREFIX <= base) {
      forall rs: seq<Request>
        ensures Replay(View(p.mask, true), Run(p, rs).1) == View(Run(p, rs).0.mask, IsSpoiler(Run(p, rs).0))
      {
        LogIsHistory(p, rs, base, true);
      }
    } else {
      OffOnce(p, base, Request(Spoiler(false), ""));
    }
  }

  /** A spoiler request leaves the post in the requested state, and a row exactly when it was in
      the other. */
  lemma SpoilerSets(p: Post, base: string, spoiler: bool, on: bool, actor: string)
    requires !(PREFIX <= base) && p.sub == Subject(base, spoiler)
    ensures var (q, entry) := Apply(p, Request(Spoiler(on), actor));
      && q == p.(sub := if on then "SPOILER<>" + base else base)
      && (entry.Some? <==> on != spoiler)
      && (entry.Some? ==> entry.value.oldmask == 0 && entry.value.newmask == (if on then 129 else 130))
  {
    SubjectState(base, spoiler);
  }

  /** Row `k` of the log is what request `i` wrote, under its actor's name. */
  ghost predicate RowOf(p: Post, rs: seq<Request>, k: nat, i: nat) {
    var log := Run(p, rs).1;
    && k < |log| && i < |rs| && log[k].admin == rs[i].actor
    && Apply(Run(p, rs[..i]).0, rs[i]).1 == Some(log[k])
  }

  /** Request `i` wrote no row and changed nothing. */
  ghost predicate Quiet(p: Post, rs: seq<Request>, i: nat) {
    i < |rs| && Apply(Run(p, rs[..i]).0, rs[i]) == (Run(p, rs[..i]).0, None)
  }

  lemma RowStays(p: Post, rs: seq<Request>, k: nat, i: nat)
    requires rs != [] && i < |rs| - 1
    ensures RowOf(p, rs[..|rs| - 1], k, i) ==> RowOf(p, rs, k, i)
    ensures Quiet(p, rs[..|rs| - 1], i) ==> Quiet(p, rs, i)
  {
    hide Apply;
    assert rs[..|rs| - 1][..i] == rs[..i];
  }

  lemma LastRow(p: Post, rs: seq<Request>)
    requires rs != []
    ensures var n := |rs| - 1;
      var before, now := |Run(p, rs[..n]).1|, |Run(p, rs).1|;
      (now == before && Quiet(p, rs, n)) || (now == before + 1 && RowOf(p, rs, before, n))
  {
    var n := |rs| - 1;
    RowAndActor(Run(p, rs[..n]).0, rs[n]);
    hide Apply;
  }

  /** The rows come from the requests, in order: row `k` from request `at[k]`; the other requests
      changed nothing. */
  lemma {:induction false} RowsOfRequests(p: Post, rs: seq<Request>) returns (at: seq<nat>)
    ensures |at| == |Run(p, rs).1| && forall j, k | 0 <= j < k < |at| :: at[j] < at[k]
    ensures forall k | 0 <= k < |at| :: at[k] < |rs| && RowOf(p, rs, k, at[k])
    ensures forall i: nat | i < |rs| && i !in at :: Quiet(p, rs, i)
  {
    at := [];
    if rs != [] {
      var n := |rs| - 1;
      var more := RowsOfRequests(p, rs[..n]);
      LastRow(p, rs);
      hide Run, Apply, RowOf, Quiet;
      forall k | 0 <= k < |more| ensures RowOf(p, rs, k, more[k]) { RowStays(p, rs, k, more[k]); }
      forall i: nat | i < n && i !in more ensures Quiet(p, rs, i) { RowStays(p, rs, 0, i); }
      at := if |Run(p, rs).1| > |more| then more + [n] else more;
    }
  }

  lemma RowAndActor(p: Post, r: Request)
    ensures Apply(p, r).1.Some? ==> Apply(p, r).1.value.admin == r.actor
    ensures Apply(p, r).1.None? ==> Apply(p, r).0 == p
  {
    hide Desired, Effective, IsolatedMask;
  }

  lemma OffOnce(p: Post, base: string, r: Request)
    requires p.sub == Subject(base, true) && PREFIX <= base && r.action == Spoiler(false)
    ensures Replay(View(p.mask, true), Run(p, [r]).1) != View(Run(p, [r]).0.mask, IsSpoiler(Run(p, [r]).0))
  {
    assert [r][..0] == [];
    assert Run(p, []) == (p, []);
    assert p.sub[|PREFIX|..] == base;
    var e := Snapshot(p, 0, 130, r.actor);
    assert Run(p, [r]).1 == [] + [e];
    ReplayAppend(View(p.mask, true), [], e);
  }

  /** The permaage flag changes only by a grouped request of an actor allowed to. */
  lemma {:induction false} PermaageNeedsPermission(p: Post, rs: seq<Request>)
    requires forall k | 0 <= k < |rs| && rs[k].action.Grouped? :: !rs[k].action.allowed
    ensures Run(p, rs).0.mask & PERMAAGE == p.mask & PERMAAGE
  {
    if rs != [] {
      var front, r := rs[..|rs| - 1], rs[|rs| - 1];
      PermaageNeedsPermission(p, front);
      KeepsPermaage(Run(p, front).0, r);
    }
  }

  lemma KeepsPermaage(p: Post, r: Request)
    requires r.action.Grouped? ==> !r.action.allowed
    ensures Apply(p, r).0.mask & PERMAAGE == p.mask & PERMAAGE
  {
    var m, d: Mask := p.mask, if r.action.Grouped? then Desired(r.action.form) else 0;
    assert ((d & !PERMAAGE) | (m & PERMAAGE)) & PERMAAGE == m & PERMAAGE;
    assert (m | 4) & PERMAAGE == m & PERMAAGE && (m & !(4 as bv8)) & PERMAAGE == m & PERMAAGE;
    assert (m | 2) & PERMAAGE == m & PERMAAGE && (m & !(2 as bv8)) & PERMAAGE == m & PERMAAGE;
  }

  /** An isolated action changes its own flag only: with the inverse action it is undone exactly
      when it changed anything. */
  lemma IsolatedSiblings(m: Mask)
    ensures IsolatedMask(m, Close) & !(4 as bv8) == m & !(4 as bv8) == IsolatedMask(m, Reopen) & !(4 as bv8)
    ensures IsolatedMask(m, Permasage) & !(2 as bv8) == m & !(2 as bv8) == IsolatedMask(m, Unpermasage) & !(2 as bv8)
    ensures IsolatedMask(IsolatedMask(m, Close), Reopen) == m <==> m & 4 == 0
    ensures IsolatedMask(IsolatedMask(m, Permasage), Unpermasage) == m <==> m & 2 == 0
  {
  }

  /** After an isolated action its flag is as the action says, and every other flag as it was. */
  lemma IsolatedSets(m: Mask)
    ensures IsolatedMask(m, Close) & 4 == 4 && IsolatedMask(m, Reopen) & 4 == 0
    ensures IsolatedMask(m, Permasage) & 2 == 2 && IsolatedMask(m, Unpermasage) & 2 == 0
    ensures IsolatedMask(m, Close) & 27 == m & 27 == IsolatedMask(m, Reopen) & 27
    ensures IsolatedMask(m, Permasage) & 29 == m & 29 == IsolatedMask(m, Unpermasage) & 29
  {
  }

  /** The flag of an isolated action, and whether it sets or clears it. */
  function Target(option: Isolated): (bv8, bool) {
    match option
    case Close => (4, true)
    case Reopen => (4, false)
    case Permasage => (2, true)
    case Unpermasage => (2, false)
  }

  /** An isolated request writes a row exactly when its flag was in the other state; the row names
      both masks, which differ in that flag alone. */
  lemma IsolatedLogs(p: Post, option: Isolated, actor: string)
    ensures var (q, entry) := Apply(p, Request(One(option), actor));
      var (bit, on) := Target(option);
      && (q.mask & bit != 0 <==> on) && q.mask & !bit == p.mask & !bit
      && (entry.Some? <==> (p.mask & bit != 0) != on)
      && (entry.Some? ==> entry.value == Snapshot(p, p.mask, q.mask, actor))
      && q == p.(mask := q.mask)
  {
    var m := p.mask;
    IsolatedSets(m);
    SameMask(m, IsolatedMask(m, option), Target(option).0);
  }

  lemma SameMask(a: Mask, b: Mask, bit: bv8)
    requires bit in {2, 4} && a & !bit == b & !bit
    ensures a == b <==> (a & bit != 0 <==> b & bit != 0)
  {
  }

  /** A grouped request without a submit value, or with a rank outside 0 to 60 on a sticky thread,
      changes nothing. */
  lemma GroupedRefused(p: Post, f: Form, allowed: bool, actor: string)
    requires f.submit == "" || (f.sticky == Some(true) && f.rank.Some? && !(0 <= f.rank.value <= 60))
    ensures Apply(p, Request(Grouped(f, allowed), actor)) == (p, None)
  {
  }

  /** A grouped request stores the requested mask exactly, but for permaage without permission;
      a request whose omitted fields clear sibling flags says so in its audit row. */
  lemma GroupedStores(p: Post, f: Form, allowed: bool, actor: string)
    requires f.submit != "" && !(f.sticky == Some(true) && f.rank.Some? && !(0 <= f.rank.value <= 60))
    ensures var (q, entry) := Apply(p, Request(Grouped(f, allowed), actor));
      && (q.mask & !PERMAAGE) == (Desired(f) & !PERMAAGE)
      && (q.mask & PERMAAGE) == ((if allowed then Desired(f) else p.mask) & PERMAAGE)
      && (entry.Some? <==> q.mask != p.mask)
      && (entry.Some? ==> entry.value.oldmask == p.mask && entry.value.newmask == q.mask)
  {
    var m, d := p.mask, Desired(f);
    assert ((d & !PERMAAGE) | (m & PERMAAGE)) & PERMAAGE == m & PERMAAGE;
    assert ((d & !PERMAAGE) | (m & PERMAAGE)) & !PERMAAGE == d & !PERMAAGE;
  }

  // ----- A run, step by step -----

  method Execute(p: Post, rs: seq<Request>) returns (q: Post, log: seq<Entry>)
    ensures (q, log) == Run(p, rs)
  {
    q, log := p, [];
    for k := 0 to |rs|
      invariant (q, log) == Run(p, rs[..k])
    {
      hide Apply;
      assert rs[..k + 1][..k] == rs[..k];
      var (next, entry) := Apply(q, rs[k]);
      q := next;
      if entry.Some? { log := log + [entry.value]; }
    }
    assert rs[..|rs|] == rs;
  }
}
