/** scripts/extract-sticky-retention-reference.py and scripts/extract-autoarchive-reference.py:
    the rolling reply window of a sticky+undead thread, and archiving at a reply threshold. */
module Retention {
  import opened Wrappers
  import opened FiniteSets

  const OP := 1
  const OTHER := 99999

  // ----- SQL over reply ids -----

  lemma {:induction false} Greatest(s: set<int>) returns (m: int)
    requires s != {}
    ensures m in s && forall x | x in s :: x <= m
  {
    var x := Member(s);
    var rest := s - {x};
    m := x;
    if rest != {} {
      m := Greatest(rest);
      if x > m { m := x; }
    }
    forall y | y in s ensures y <= m { assert y == x || y in rest; }
  }

  function Max(s: set<int>): (m: int)
    requires s != {}
    ensures m in s && forall x | x in s :: x <= m
  {
    assert exists m :: m in s && forall x | x in s :: x <= m by { var m := Greatest(s); }
    var m :| m in s && forall x | x in s :: x <= m;
    m
  }

  function Min(s: set<int>): (m: int)
    requires s != {}
    ensures m in s && forall x | x in s :: m <= x
  {
    assert exists m :: m in s && forall x | x in s :: m <= x by { var m := Least(s); }
    var m :| m in s && forall x | x in s :: m <= x;
    m
  }

  /** SELECT no ... ORDER BY no DESC LIMIT k, as a set. */
  function Newest(s: set<int>, k: nat): (r: set<int>)
    ensures r <= s
    decreases k
  {
    if k == 0 || s == {} then {} else {Max(s)} + Newest(s - {Max(s)}, k - 1)
  }

  /** SELECT no ... ORDER BY no: strictly ascending, and exactly the ids. */
  function Ordered(s: set<int>): (r: seq<int>)
    ensures |r| == |s| && (forall n :: n in r <==> n in s)
    ensures forall i, j | 0 <= i < j < |r| :: r[i] < r[j]
  {
    if s == {} then []
    else
      var rest := Ordered(s - {Min(s)});
      assert forall n :: n in s <==> n == Min(s) || n in s - {Min(s)};
      assert forall i | 0 <= i < |rest| :: rest[i] in s - {Min(s)};
      [Min(s)] + rest
  }

  /** What SELECT MIN(no) FROM (...) and the DELETE leave of the replies. */
  function Survivors(s: set<int>, cap: int): set<int> {
    if cap <= 1 || Newest(s, cap - 1) == {} || Min(Newest(s, cap - 1)) <= OP then s
    else set n | n in s && n >= Min(Newest(s, cap - 1))
  }

  function Above(s: set<int>, n: int): set<int> { set x | x in s && x > n }

  /** An id is among the newest k exactly when fewer than k ids are greater. */
  lemma {:induction false} NewestIff(s: set<int>, k: nat, n: int)
    ensures n in Newest(s, k) <==> n in s && |Above(s, n)| < k
    decreases k
  {
    if s != {} && k != 0 {
      var m := Max(s);
      if n == m {
        assert Above(s, n) == {};
      } else if n in s {
        NewestIff(s - {m}, k - 1, n);
        assert Above(s, n) == Above(s - {m}, n) + {m};
      }
    }
  }

  /** The newest are everything from their minimum on. */
  lemma {:induction false} NewestIsTop(s: set<int>, k: nat)
    requires Newest(s, k) != {}
    ensures Newest(s, k) == set n | n in s && n >= Min(Newest(s, k))
  {
    var low := Min(Newest(s, k));
    NewestIff(s, k, low);
    forall n | n in s && n >= low ensures n in Newest(s, k) {
      SubsetSize(Above(s, n), Above(s, low));
      NewestIff(s, k, n);
    }
  }

  lemma {:induction false} NewestOfSmall(s: set<int>, k: nat)
    ensures |Newest(s, k)| == if |s| <= k then |s| else k
    ensures |s| <= k ==> Newest(s, k) == s
    decreases k
  {
    if s != {} && k != 0 { NewestOfSmall(s - {Max(s)}, k - 1); }
  }

  /** The MIN-over-LIMIT form keeps exactly the newest cap - 1 replies if, and only if, the
      window's oldest reply is above the OP or the window holds every reply. */
  lemma SurvivorsAreNewest(s: set<int>, cap: int)
    requires cap > 1
    ensures Survivors(s, cap) == Newest(s, cap - 1) <==>
      |s| <= cap - 1 || Min(Newest(s, cap - 1)) > OP
  {
    NewestOfSmall(s, cap - 1);
    if Newest(s, cap - 1) != {} { NewestIsTop(s, cap - 1); }
  }

  lemma RepliesAboveOp(s: set<int>, cap: int)
    requires cap > 1 && forall n | n in s :: n > OP
    ensures Survivors(s, cap) == Newest(s, cap - 1)
  {
    NewestOfSmall(s, cap - 1);
    SurvivorsAreNewest(s, cap);
  }

  // ----- Runs of posts -----

  lemma {:induction false} NewestTwice(s: set<int>, a: nat, b: nat)
    requires b <= a
    ensures Newest(Newest(s, a), b) == Newest(s, b)
    decreases b
  {
    if b != 0 && s != {} {
      var m := Max(s);
      var t := s - {m};
      NewestTwice(t, a - 1, b - 1);
      assert Max({m} + Newest(t, a - 1)) == m;
      assert {m} + Newest(t, a - 1) - {m} == Newest(t, a - 1);
    }
  }

  lemma NewestAfterPost(s: set<int>, no: int, k: nat)
    requires forall n | n in s :: n < no
    ensures Newest(s + {no}, k + 1) == Newest(s, k) + {no}
  {
    assert Max(s + {no}) == no;
    assert s + {no} - {no} == s;
  }

  /** Replies after a run of posts to a sticky+undead thread. */
  function Replies(backlog: set<int>, cap: int, posts: seq<int>): set<int> {
    if posts == [] then backlog
    else Survivors(Replies(backlog, cap, posts[..|posts| - 1]), cap) + {posts[|posts| - 1]}
  }

  function Ever(backlog: set<int>, posts: seq<int>): set<int> {
    if posts == [] then backlog else Ever(backlog, posts[..|posts| - 1]) + {posts[|posts| - 1]}
  }

  /** Each post's id is above the OP and above every earlier one. */
  ghost predicate Increasing(backlog: set<int>, posts: seq<int>) {
    && (forall n | n in backlog :: n > OP)
    && (forall i | 0 <= i < |posts| :: posts[i] > OP && forall n | n in backlog :: n < posts[i])
    && (forall i, j | 0 <= i < j < |posts| :: posts[i] < posts[j])
  }

  lemma IncreasingFront(backlog: set<int>, posts: seq<int>, no: int)
    requires Increasing(backlog, posts + [no])
    ensures Increasing(backlog, posts)
    ensures forall n | n in backlog :: OP < n < no
    ensures posts != [] ==> OP < posts[|posts| - 1] < no
  {
    var all := posts + [no];
    assert forall i | 0 <= i < |posts| :: all[i] == posts[i];
    assert all[|posts|] == no;
  }

  lemma {:induction false} EverBelow(backlog: set<int>, posts: seq<int>, no: int)
    requires Increasing(backlog, posts + [no])
    ensures Increasing(backlog, posts)
    ensures forall n | n in Ever(backlog, posts) :: OP < n < no
  {
    hide Increasing;
    IncreasingFront(backlog, posts, no);
    if posts != [] {
      var front, last := posts[..|posts| - 1], posts[|posts| - 1];
      assert front + [last] == posts;
      EverBelow(backlog, front, last);
    }
  }

  /** From any backlog, after at least one post the thread holds exactly the newest `cap` of all
      the replies it ever had. */
  lemma {:induction false} RollingWindow(backlog: set<int>, cap: int, posts: seq<int>)
    requires cap > 1 && posts != [] && Increasing(backlog, posts)
    ensures Replies(backlog, cap, posts) == Newest(Ever(backlog, posts), cap)
  {
    var front, no := posts[..|posts| - 1], posts[|posts| - 1];
    assert posts == front + [no];
    EverBelow(backlog, front, no);
    var ever := Ever(backlog, front);
    if front != [] {
      RollingWindow(backlog, cap, front);
      NewestTwice(ever, cap, cap - 1);
      RepliesAboveOp(Newest(ever, cap), cap);
    } else {
      RepliesAboveOp(backlog, cap);
    }
    NewestAfterPost(ever, no, cap - 1);
  }

  // ----- Archiving -----

  datatype Board = Board(stickyCap: int, archiveCap: nat, archiving: bool)
  datatype Thread = Thread(replies: set<int>, sticky: bool, undead: bool, archived: bool)
  datatype Action = Reply(no: int) | SetFlags(sticky: bool, undead: bool)

  /** The source's predicate, evaluated after a reply is admitted. */
  predicate Archives(b: Board, t: Thread) {
    b.archiveCap != 0 && !t.sticky && !t.undead && b.archiving && |t.replies| >= b.archiveCap
  }

  /** The window prunes before the insert, the archive rule looks after it; an archived thread
      takes no more replies. */
  function Act(b: Board, t: Thread, a: Action): Thread {
    match a
    case SetFlags(sticky, undead) => t.(sticky := sticky, undead := undead)
    case Reply(no) =>
      if t.archived then t
      else
        var kept := if t.sticky && t.undead then Survivors(t.replies, b.stickyCap) else t.replies;
        var posted := t.(replies := kept + {no});
        posted.(archived := Archives(b, posted))
  }

  function Run(b: Board, t: Thread, actions: seq<Action>): Thread {
    if actions == [] then t else Act(b, Run(b, t, actions[..|actions| - 1]), actions[|actions| - 1])
  }

  /** Every reply's id exceeds all before it. */
  ghost predicate Fresh(t: Thread, actions: seq<Action>) {
    && (forall n | n in t.replies :: n > OP)
    && (forall i | 0 <= i < |actions| && actions[i].Reply? ::
          actions[i].no > OP && (forall n | n in t.replies :: n < actions[i].no) &&
          forall j | 0 <= j < i && actions[j].Reply? :: actions[j].no < actions[i].no)
  }

  lemma {:induction false} RunBelow(b: Board, t: Thread, actions: seq<Action>, a: Action)
    requires Fresh(t, actions + [a])
    ensures Fresh(t, actions)
    ensures forall n | n in Run(b, t, actions).replies :: n > OP && (a.Reply? ==> n < a.no)
  {
    hide Survivors;
    var all := actions + [a];
    assert forall i | 0 <= i < |actions| :: all[i] == actions[i];
    assert all[|actions|] == a;
    if actions != [] {
      var front, last := actions[..|actions| - 1], actions[|actions| - 1];
      assert front + [last] == actions;
      RunBelow(b, t, front, last);
      var before := Run(b, t, front);
      SurvivorsSubset(before.replies, b.stickyCap);
      forall n | n in before.replies ensures a.Reply? ==> n < a.no {
        if a.Reply? { RunFrom(b, t, front, a.no); }
      }
    }
  }

  lemma SurvivorsSubset(s: set<int>, cap: int)
    ensures Survivors(s, cap) <= s
  {
  }

  lemma {:induction false} RunFrom(b: Board, t: Thread, actions: seq<Action>, bound: int)
    requires forall n | n in t.replies :: n < bound
    requires forall i | 0 <= i < |actions| && actions[i].Reply? :: actions[i].no < bound
    ensures forall n | n in Run(b, t, actions).replies :: n < bound
  {
    hide Survivors;
    if actions != [] {
      RunFrom(b, t, actions[..|actions| - 1], bound);
      SurvivorsSubset(Run(b, t, actions[..|actions| - 1]).replies, b.stickyCap);
    }
  }

  /** Over any run of replies and flag changes, right after a reply: an unarchived ordinary thread
      is below the archive threshold, and a sticky+undead one is within its window. */
  lemma AfterReply(b: Board, t: Thread, actions: seq<Action>, no: int)
    requires Fresh(t, actions + [Reply(no)])
    requires !Run(b, t, actions).archived
    ensures var u := Run(b, t, actions + [Reply(no)]);
      && no in u.replies
      && (!u.archived && !u.sticky && !u.undead && b.archiving && b.archiveCap > 0 ==> |u.replies| < b.archiveCap)
      && (u.sticky && u.undead && b.stickyCap > 1 ==> |u.replies| <= b.stickyCap && !u.archived)
      && (u.archived ==> u.replies == Run(b, t, actions).replies + {no})
  {
    var before := Run(b, t, actions);
    assert (actions + [Reply(no)])[..|actions|] == actions;
    RunBelow(b, t, actions, Reply(no));
    if before.sticky && before.undead && b.stickyCap > 1 {
      RepliesAboveOp(before.replies, b.stickyCap);
      NewestOfSmall(before.replies, b.stickyCap - 1);
    }
  }

  /** What a reply leaves of its thread, and exactly when it archives it: neither flag is set, the board archives, and the
      reply brings the thread to a cap that is not zero. A thread with either flag is never archived
      by a reply, nor is any on a board without archiving. */
  lemma ArchivedIff(b: Board, t: Thread, actions: seq<Action>, no: int)
    requires Fresh(t, actions + [Reply(no)])
    requires !Run(b, t, actions).archived
    ensures var before, after := Run(b, t, actions), Run(b, t, actions + [Reply(no)]);
      && after.sticky == before.sticky && after.undead == before.undead
      && (after.archived <==>
            b.archiving && b.archiveCap > 0 && !before.sticky && !before.undead && |before.replies| + 1 >= b.archiveCap)
      && after.replies == if before.sticky && before.undead && b.stickyCap > 1 then Newest(before.replies + {no}, b.stickyCap)
                          else before.replies + {no}
  {
    hide Survivors, Newest, Act, Fresh;
    assert (actions + [Reply(no)])[..|actions|] == actions;
    RunBelow(b, t, actions, Reply(no));
    ReplyActs(b, Run(b, t, actions), no);
  }

  lemma ReplyActs(b: Board, before: Thread, no: int)
    requires !before.archived && forall n | n in before.replies :: OP < n < no
    ensures var after := Act(b, before, Reply(no));
      && after.sticky == before.sticky && after.undead == before.undead
      && (after.archived <==>
            b.archiving && b.archiveCap > 0 && !before.sticky && !before.undead && |before.replies| + 1 >= b.archiveCap)
      && after.replies == if before.sticky && before.undead && b.stickyCap > 1 then Newest(before.replies + {no}, b.stickyCap)
                          else before.replies + {no}
  {
    hide Newest, Survivors;
    assert no !in before.replies;
    if b.stickyCap > 1 {
      RepliesAboveOp(before.replies, b.stickyCap);
      NewestAfterPost(before.replies, no, b.stickyCap - 1);
    } else {
      NoWindow(before.replies, b.stickyCap);
    }
  }

  lemma NoWindow(s: set<int>, cap: int)
    requires cap <= 1
    ensures Survivors(s, cap) == s
  {
  }

  /** The flags of a thread are those last set; setting them touches nothing else, and an archived
      thread stays as it is under replies. */
  lemma FlagsAndArchive(b: Board, t: Thread, actions: seq<Action>, a: Action)
    ensures var before, after := Run(b, t, actions), Run(b, t, actions + [a]);
      && (a.SetFlags? ==> after == before.(sticky := a.sticky, undead := a.undead))
      && (a.Reply? && before.archived ==> after == before)
      && (a.Reply? ==> after.sticky == before.sticky && after.undead == before.undead)
  {
    assert (actions + [a])[..|actions|] == actions;
    hide Survivors;
  }

  /** An ordinary thread below the threshold is archived by exactly the reply that reaches it,
      with all its replies kept. */
  lemma {:induction false} ArchivedAtThreshold(b: Board, t: Thread, actions: seq<Action>)
    requires b.archiveCap > 0 && b.archiving && |t.replies| < b.archiveCap
    requires !t.sticky && !t.undead && !t.archived && Fresh(t, actions)
    requires forall i | 0 <= i < |actions| :: actions[i].Reply?
    ensures var u := Run(b, t, actions);
      !u.sticky && !u.undead &&
      (u.archived <==> |t.replies| + |actions| >= b.archiveCap) &&
      |u.replies| == (if u.archived then b.archiveCap else |t.replies| + |actions|)
  {
    hide Survivors;
    if actions != [] {
      var front, a := actions[..|actions| - 1], actions[|actions| - 1];
      assert front + [a] == actions;
      RunBelow(b, t, front, a);
      ArchivedAtThreshold(b, t, front);
      var before := Run(b, t, front);
      assert a.no !in before.replies;
    }
  }

  // ----- The witness -----

  datatype Outcome = Outcome(pruned: seq<int>, surviving: seq<int>, visible: nat)

  /** The posts table: id to thread. */
  class Posts {
    var rows: map<int, int>

    ghost function Of(thread: int): set<int>
      reads this
    {
      set n | n in rows && rows[n] == thread
    }

    constructor ()
      ensures rows == map[]
    {
      rows := map[];
    }

    ghost function Others(): set<int>
      reads this
    {
      set n | n in rows && rows[n] != OP
    }

    /** False stands for the primary key's IntegrityError. */
    method Insert(no: int, resto: int) returns (ok: bool)
      modifies this
      ensures ok == (no !in old(rows)) && rows == if ok then old(rows)[no := resto] else old(rows)
    {
      ok := no !in rows;
      if ok { rows := rows[no := resto]; }
    }

    /** One more reply of the thread. */
    method InsertReply(no: int) returns (ok: bool)
      modifies this
      ensures ok <==> no !in old(Of(OP)) + old(Others())
      ensures Others() == old(Others())
      ensures Of(OP) == if ok then old(Of(OP)) + {no} else old(Of(OP))
    {
      ok := Insert(no, OP);
    }

    /** A row of another thread, or the OP. */
    method InsertOther(no: int, resto: int) returns (ok: bool)
      requires resto != OP
      modifies this
      ensures ok <==> no !in old(Of(OP)) + old(Others())
      ensures Of(OP) == old(Of(OP))
      ensures Others() == if ok then old(Others()) + {no} else old(Others())
    {
      ok := Insert(no, resto);
    }

    /** executemany over the existing replies of the thread. */
    method InsertReplies(existing: seq<int>) returns (ok: bool)
      requires rows == map[]
      modifies this
      ensures ok <==> forall i, j | 0 <= i < j < |existing| :: existing[i] != existing[j]
      ensures ok ==> Of(OP) == (set n | n in existing) && Others() == {}
    {
      for i := 0 to |existing|
        invariant forall n :: n in Of(OP) <==> n in existing[..i]
        invariant Others() == {}
        invariant forall j, k | 0 <= j < k < i :: existing[j] != existing[k]
      {
        assert existing[..i + 1] == existing[..i] + [existing[i]];
        ok := InsertReply(existing[i]);
        if !ok {
          var j :| 0 <= j < i && existing[..i][j] == existing[i];
          assert existing[j] == existing[i];
          return;
        }
      }
      assert existing[..|existing|] == existing;
      ghost var all := set n | n in existing;
      assert forall n :: n in Of(OP) <==> n in all;
      ok := true;
    }

    /** SELECT no FROM posts WHERE resto = ? */
    method Select(thread: int) returns (nos: set<int>)
      ensures nos == Of(thread)
    {
      nos := set n | n in rows && rows[n] == thread;
    }

    /** executemany over the ids to delete. */
    method Delete(nos: seq<int>)
      modifies this
      ensures forall n :: n in rows <==> n in old(rows) && n !in nos
      ensures forall n | n in rows :: rows[n] == old(rows)[n]
    {
      for i := 0 to |nos|
        invariant forall n :: n in rows <==> n in old(rows) && n !in nos[..i]
        invariant forall n | n in rows :: rows[n] == old(rows)[n]
      {
        assert nos[..i + 1] == nos[..i] + [nos[i]];
        rows := rows - {nos[i]};
      }
      assert nos[..|nos|] == nos;
    }

    /** The two SELECTs and the DELETEs. Other threads and the OP are untouched. */
    method Prune(cap: int) returns (pruned: seq<int>)
      modifies this
      ensures Of(OP) == Survivors(old(Of(OP)), cap) && pruned == Ordered(old(Of(OP)) - Of(OP))
      ensures Others() == old(Others())
      ensures forall n | n in rows :: n in old(rows) && rows[n] == old(rows)[n]
    {
      hide Newest, Ordered;
      pruned := [];
      ghost var before := Of(OP);
      var replies := Select(OP);
      if cap > 1 {
        var window := Newest(replies, cap - 1);
        if window != {} && Min(window) > OP {
          var older := set n | n in replies && n < Min(window);
          pruned := Ordered(older);
          ghost var was := rows;
          Delete(pruned);
          assert forall n :: n in rows <==> n in was && n !in older;
          assert forall n :: n in Of(OP) <==> n in before && n !in older;
          assert forall n :: n in Others() <==> n in was && was[n] != OP;
          ghost var newer := set n | n in replies && n >= Min(window);
          assert forall n :: n in Of(OP) <==> n in newer;
          assert before - Of(OP) == older;
          return;
        }
      }
      assert before - Of(OP) == {};
    }
  }

  lemma SurvivorsAndPost(backlog: set<int>, cap: int, incoming: int)
    ensures cap > 1 && (forall n | n in backlog :: OP < n < incoming) ==>
              Survivors(backlog, cap) + {incoming} == Newest(backlog + {incoming}, cap)
  {
    if cap > 1 && forall n | n in backlog :: OP < n < incoming {
      RepliesAboveOp(backlog, cap);
      NewestAfterPost(backlog, incoming, cap - 1);
    }
  }

  /** `witness`: None is an IntegrityError. Otherwise the replies that survive are those the
      query form keeps, plus the incoming one; with ids above the OP, exactly the newest. */
  method Witness(cap: int, existing: seq<int>, incoming: int) returns (r: Option<Outcome>)
    ensures var backlog := set n | n in existing;
      var kept := Survivors(backlog, cap);
      (r.Some? <==> (forall i, j | 0 <= i < j < |existing| :: existing[i] != existing[j]) &&
                    backlog !! {OP, 8, 9} && incoming !in kept + {OP, 8, 9}) &&
      (r.Some? ==> r.value == Outcome(Ordered(backlog - kept), Ordered(kept + {incoming}), |kept + {incoming}|)) &&
      (r.Some? && cap > 1 && (forall n | n in backlog :: OP < n < incoming) ==>
         r.value.surviving == Ordered(Newest(backlog + {incoming}, cap)))
  {
    hide Survivors, Newest, Ordered;
    ghost var backlog := set n | n in existing;
    var con := new Posts();
    var ok := con.InsertReplies(existing);
    if !ok { return None; }
    ok := con.InsertOther(8, OTHER);
    if !ok { return None; }
    ok := con.InsertOther(9, OTHER);
    if !ok { return None; }
    ok := con.InsertOther(OP, 0);
    if !ok { return None; }
    assert con.Of(OP) == backlog && con.Others() == {OP, 8, 9};
    ghost var kept := Survivors(backlog, cap);
    var pruned := con.Prune(cap);
    assert con.Of(OP) == kept && pruned == Ordered(backlog - kept);
    ok := con.InsertReply(incoming);
    if !ok { return None; }
    SurvivorsAndPost(backlog, cap, incoming);
    var remaining := con.Select(OP);
    var surviving := Ordered(remaining);
    r := Some(Outcome(pruned, surviving, |surviving|));
  }
}
