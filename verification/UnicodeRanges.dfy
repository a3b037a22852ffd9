/** scripts/extract-wordfilter-unicode-reference.php: one scan over all code points builds the
    range tables of several character classes at once; crates/domain/src/wordfilter.rs looks
    characters up in them. */
module UnicodeRanges {
  import opened Wrappers

  const SENTINEL := 0x11_0000

  type Class = nat -> bool
  type Range = (nat, nat)

  predicate IsScalar(point: nat) { point < SENTINEL && !(0xD800 <= point <= 0xDFFF) }

  /** The pattern is consulted on scalars only. */
  predicate Matches(p: Class, point: nat) { IsScalar(point) && p(point) }

  // ----- Range tables -----

  /** Sorted, disjoint and never adjacent. */
  ghost predicate Canonical(rs: seq<Range>) {
    && (forall i | 0 <= i < |rs| :: rs[i].0 <= rs[i].1)
    && (forall i, j | 0 <= i < j < |rs| :: rs[i].1 + 1 < rs[j].0)
  }

  ghost predicate Member(point: nat, rs: seq<Range>) {
    exists i | 0 <= i < |rs| :: rs[i].0 <= point <= rs[i].1
  }

  function Size(rs: seq<Range>): nat
    requires forall i | 0 <= i < |rs| :: rs[i].0 <= rs[i].1
  {
    if rs == [] then 0
    else Size(rs[..|rs| - 1]) + (rs[|rs| - 1].1 - rs[|rs| - 1].0 + 1)
  }

  /** The number in `lo..hi` nearest to `x`. */
  function Clamp(x: nat, lo: nat, hi: nat): nat { if x < lo then lo else if x > hi then hi else x }

  lemma FirstStarts(a: seq<Range>, b: seq<Range>)
    requires Canonical(a) && Canonical(b) && a != [] && b != []
    requires Member(a[0].0, b)
    ensures b[0].0 <= a[0].0
  {
  }

  lemma FirstEnds(a: seq<Range>, b: seq<Range>)
    requires Canonical(a) && Canonical(b) && a != [] && b != [] && a[0].0 == b[0].0
    requires forall c :: Member(c, b) ==> Member(c, a)
    ensures b[0].1 <= a[0].1
  {
    assert Member(Clamp(a[0].1 + 1, b[0].0, b[0].1), b);
  }

  lemma TailMembers(rs: seq<Range>, point: nat)
    requires Canonical(rs) && rs != []
    ensures Member(point, rs[1..]) <==> Member(point, rs) && point > rs[0].1
  {
    if i :| 0 <= i < |rs| && rs[i].0 <= point <= rs[i].1 {
      if i > 0 { assert rs[1..][i - 1] == rs[i]; }
    }
    if i :| 0 <= i < |rs[1..]| && rs[1..][i].0 <= point <= rs[1..][i].1 {
      assert rs[i + 1] == rs[1..][i];
    }
  }

  lemma FirstIsMember(a: seq<Range>)
    requires Canonical(a)
    ensures if a == [] then forall c :: !Member(c, a) else Member(a[0].0, a)
  {
  }

  lemma TailIsCanonical(a: seq<Range>)
    requires Canonical(a) && a != []
    ensures Canonical(a[1..])
  {
  }

  lemma FirstRangesAgree(a: seq<Range>, b: seq<Range>)
    requires Canonical(a) && Canonical(b) && a != [] && b != []
    requires forall c :: Member(c, a) <==> Member(c, b)
    ensures a[0] == b[0]
  {
    FirstIsMember(a);
    FirstIsMember(b);
    FirstStarts(a, b);
    FirstStarts(b, a);
    FirstEnds(a, b);
    FirstEnds(b, a);
  }

  /** A set of points has only one canonical table. */
  lemma {:induction false} TableIsUnique(a: seq<Range>, b: seq<Range>)
    requires Canonical(a) && Canonical(b)
    requires forall c :: Member(c, a) <==> Member(c, b)
    ensures a == b
  {
    hide Canonical, Member;
    FirstIsMember(a);
    FirstIsMember(b);
    if a != [] && b != [] {
      FirstRangesAgree(a, b);
      TailIsCanonical(a);
      TailIsCanonical(b);
      forall c ensures Member(c, a[1..]) <==> Member(c, b[1..]) {
        TailMembers(a, c);
        TailMembers(b, c);
      }
      TableIsUnique(a[1..], b[1..]);
      assert a == [a[0]] + a[1..] && b == [b[0]] + b[1..];
    }
  }

  // ----- The scan -----

  /** `$starts`, `$ranges` and `$counts` for one class. */
  datatype Scan = Scan(start: Option<nat>, ranges: seq<Range>, count: nat)

  function Step(p: Class, point: nat, s: Scan): Scan {
    var matches := Matches(p, point);
    var count := s.count + if matches then 1 else 0;
    if matches && s.start.None? then Scan(Some(point), s.ranges, count)
    else if !matches && s.start.Some? then
      Scan(None, s.ranges + [(s.start.value, if point == 0 then 0 else point - 1)], count)
    else s.(count := count)
  }

  /** After the points below `n`. */
  function Scanned(p: Class, n: nat): Scan
    decreases n, p
  {
    if n == 0 then Scan(None, [], 0) else Step(p, n - 1, Scanned(p, n - 1))
  }

  function Count(p: Class, n: nat): nat
    decreases n, p
  {
    if n == 0 then 0 else Count(p, n - 1) + if Matches(p, n - 1) then 1 else 0
  }

  /** Closed ranges lie apart from the open one, and together they are the points matched so far. */
  ghost predicate Inv(p: Class, n: nat, s: Scan) {
    var bound := if s.start.Some? then s.start.value else n;
    && bound <= n && (s.start.Some? ==> bound < n)
    && Canonical(s.ranges)
    && (forall i | 0 <= i < |s.ranges| :: s.ranges[i].1 + 1 < bound)
    && (forall c | 0 <= c < bound :: Matches(p, c) <==> Member(c, s.ranges))
    && (forall c | bound <= c < n :: Matches(p, c))
    && (s.start.None? && n > 0 ==> !Matches(p, n - 1))
    && s.count == Count(p, n)
    && s.count == Size(s.ranges) + (n - bound)
  }

  lemma MemberAppend(rs: seq<Range>, r: Range, point: nat)
    ensures Member(point, rs + [r]) <==> Member(point, rs) || r.0 <= point <= r.1
  {
    if i :| 0 <= i < |rs + [r]| && (rs + [r])[i].0 <= point <= (rs + [r])[i].1 {
      if i < |rs| { assert rs[i] == (rs + [r])[i]; }
    }
    if i :| 0 <= i < |rs| && rs[i].0 <= point <= rs[i].1 {
      assert (rs + [r])[i] == rs[i];
    }
    if r.0 <= point <= r.1 { assert (rs + [r])[|rs|] == r; }
  }

  /** A point that does not match closes the open range. */
  lemma CloseKeeps(p: Class, n: nat, s: Scan)
    requires Inv(p, n, s) && !Matches(p, n) && s.start.Some?
    ensures Inv(p, n + 1, Step(p, n, s))
  {
    var r := (s.start.value, n - 1);
    var rs := s.ranges + [r];
    assert rs[..|rs| - 1] == s.ranges;
    hide Matches;
    forall c | 0 <= c < n + 1 ensures Matches(p, c) <==> Member(c, rs) {
      MemberAppend(s.ranges, r, c);
    }
    hide Member;
  }

  lemma StepKeeps(p: Class, n: nat, s: Scan)
    requires Inv(p, n, s)
    ensures Inv(p, n + 1, Step(p, n, s))
  {
    if !Matches(p, n) && s.start.Some? {
      CloseKeeps(p, n, s);
    } else {
      hide Size, Matches;
      assert s.start.None? ==> !Member(n, s.ranges);
    }
  }

  lemma {:induction false} ScannedInv(p: Class, n: nat)
    ensures Inv(p, n, Scanned(p, n))
    decreases n, p
  {
    if n != 0 {
      ScannedInv(p, n - 1);
      hide Inv, Step;
      StepKeeps(p, n - 1, Scanned(p, n - 1));
    }
  }

  /** The table of a class: what the scan has once the sentinel has closed the last range. */
  function Table(p: Class): seq<Range> { Scanned(p, SENTINEL + 1).ranges }

  /** Whatever the class, the scan leaves no range open; its table is canonical, holds exactly
      the scalars of the class, and its sizes add up to the count. */
  lemma TableIsExact(p: Class)
    ensures var s := Scanned(p, SENTINEL + 1);
      s.start.None? && Canonical(s.ranges) && s.count == Size(s.ranges) == Count(p, SENTINEL) &&
      (forall i | 0 <= i < |s.ranges| :: s.ranges[i].1 < SENTINEL) &&
      forall c :: Member(c, s.ranges) <==> Matches(p, c)
  {
    var n: nat := SENTINEL;
    ScannedInv(p, n + 1);
    assert !Matches(p, n);
  }

  /** So no range meets the surrogate gap, and no other canonical table could be right. */
  lemma TableAvoidsSurrogates(p: Class, other: seq<Range>)
    ensures forall i | 0 <= i < |Table(p)| :: Table(p)[i].1 < 0xD800 || Table(p)[i].0 > 0xDFFF
    ensures Canonical(other) && (forall c :: Member(c, other) <==> Matches(p, c)) ==> other == Table(p)
  {
    TableIsExact(p);
    hide Scanned;
    var rs := Table(p);
    forall i | 0 <= i < |rs| ensures rs[i].1 < 0xD800 || rs[i].0 > 0xDFFF {
      assert Member(Clamp(0xD800, rs[i].0, rs[i].1), rs);
    }
    if Canonical(other) && forall c :: Member(c, other) <==> Matches(p, c) { TableIsUnique(other, rs); }
  }

  // ----- Lookup -----

  /** slice::partition_point for `start <= point`. */
  function PartitionPoint(rs: seq<Range>, point: nat): (k: nat)
    ensures k <= |rs|
    ensures forall i | 0 <= i < k :: rs[i].0 <= point
    ensures k < |rs| ==> point < rs[k].0
  {
    if rs == [] || point < rs[0].0 then 0 else 1 + PartitionPoint(rs[1..], point)
  }

  predicate CharMatches(rs: seq<Range>, point: nat) {
    var after := PartitionPoint(rs, point);
    after > 0 && rs[after - 1].1 >= point
  }

  lemma LookupIsMembership(rs: seq<Range>, point: nat)
    requires Canonical(rs)
    ensures CharMatches(rs, point) <==> Member(point, rs)
  {
    var after := PartitionPoint(rs, point);
    if i :| 0 <= i < |rs| && rs[i].0 <= point <= rs[i].1 {
      assert i < after;
      assert forall j | 0 <= j < after - 1 :: rs[j].1 + 1 < rs[after - 1].0;
    }
  }

  /** The table the script generates and the lookup the word filter performs agree with the
      pattern on every scalar. */
  lemma LookupIsClass(p: Class, point: nat)
    requires IsScalar(point)
    ensures CharMatches(Table(p), point) <==> p(point)
  {
    TableIsExact(p);
    hide Scanned;
    LookupIsMembership(Table(p), point);
  }

  // ----- The script's loops -----

  function Scalars(n: nat): nat
    decreases n, true
  {
    if n == 0 then 0 else Scalars(n - 1) + if IsScalar(n - 1) then 1 else 0
  }

  lemma {:induction false} ScalarsClosed(n: nat)
    ensures Scalars(n) == if n <= 0xD800 then n else if n <= 0xE000 then 0xD800
                          else if n <= SENTINEL then n - 0x800 else 0x10_F800
    decreases n, true
  {
    if n != 0 { ScalarsClosed(n - 1); }
  }

  /** One scan serves all classes; `$scalars` always comes to the 1,112,064 the script demands. */
  method ScanAll(classes: seq<Class>) returns (ranges: array<seq<Range>>, counts: array<nat>, scalars: nat)
    ensures fresh(ranges) && fresh(counts) && ranges.Length == counts.Length == |classes|
    ensures forall k | 0 <= k < |classes| :: ranges[k] == Table(classes[k]) && counts[k] == Count(classes[k], SENTINEL)
    ensures scalars == 1112064
  {
    hide Step, Matches;
    var count := |classes|;
    ranges := new seq<Range>[count](_ => []);
    counts := new nat[count](_ => 0);
    var starts := new Option<nat>[count](_ => None);
    scalars := 0;
    var point := 0;
    while point <= SENTINEL
      invariant 0 <= point <= SENTINEL + 1
      invariant scalars == Scalars(point)
      invariant forall k | 0 <= k < count :: Scan(starts[k], ranges[k], counts[k]) == Scanned(classes[k], point)
    {
      var scalar := point < SENTINEL && !(point >= 0xD800 && point <= 0xDFFF);
      if scalar { scalars := scalars + 1; }
      for k := 0 to count
        invariant forall j | 0 <= j < k :: Scan(starts[j], ranges[j], counts[j]) == Scanned(classes[j], point + 1)
        invariant forall j | k <= j < count :: Scan(starts[j], ranges[j], counts[j]) == Scanned(classes[j], point)
      {
        StepInPlace(classes[k], point, scalar, starts, ranges, counts, k);
      }
      point := point + 1;
    }
    ScalarsClosed(SENTINEL + 1);
    forall k | 0 <= k < count ensures counts[k] == Count(classes[k], SENTINEL) {
      TableIsExact(classes[k]);
    }
  }

  /** The body of the inner loop. */
  method StepInPlace(p: Class, point: nat, scalar: bool, starts: array<Option<nat>>, ranges: array<seq<Range>>,
                     counts: array<nat>, k: nat)
    requires k < starts.Length == ranges.Length == counts.Length
    requires scalar == IsScalar(point)
    requires ranges != counts as object && starts != ranges as object
    modifies starts, ranges, counts
    ensures Scan(starts[k], ranges[k], counts[k]) == Step(p, point, old(Scan(starts[k], ranges[k], counts[k])))
    ensures forall j | 0 <= j < starts.Length && j != k ::
      starts[j] == old(starts[j]) && ranges[j] == old(ranges[j]) && counts[j] == old(counts[j])
  {
    var matches := scalar && p(point);
    if matches { counts[k] := counts[k] + 1; }
    if matches && starts[k] == None {
      starts[k] := Some(point);
    } else if !matches && starts[k] != None {
      ranges[k] := ranges[k] + [(starts[k].value, if point == 0 then 0 else point - 1)];
      starts[k] := None;
    }
  }
}
