/** scripts/extract-preview-policy-reference.py, `derive`: which replies of a thread its previews
    show, and what they say about the rest. */
module Preview {
  import opened Wrappers
  import opened Decimals

  datatype Row = Row(id: string, fsize: int, deleted: bool)
  datatype Data = Data(op: string, replies: seq<Row>, showUniques: bool, uniqueIps: nat)

  /** The white space `int` ignores around a numeral. */
  predicate IsBlank(c: char) { c == ' ' || '\t' <= c <= '\r' }

  function Trim(s: string): string
    decreases |s|
  {
    if s != [] && IsBlank(s[0]) then Trim(s[1..])
    else if s != [] && IsBlank(s[|s| - 1]) then Trim(s[..|s| - 1])
    else s
  }

  /** The digits of a numeral, single underscores between digits dropped. */
  function DigitsOf(s: string, afterDigit: bool): (r: Option<string>)
    ensures r.Some? ==> AllDigits(r.value)
  {
    if s == [] then if afterDigit then Some([]) else None
    else if s[0] == '_' && afterDigit then DigitsOf(s[1..], false)
    else if !IsDigit(s[0]) then None
    else
      var rest := DigitsOf(s[1..], true);
      if rest.None? then None else Some([s[0]] + rest.value)
  }

  /** int(s); None is a ValueError. */
  function IntOf(s: string): Option<int> {
    var t := Trim(s);
    var signed := t != [] && t[0] in {'-', '+'};
    var digits := DigitsOf(if signed then t[1..] else t, false);
    if digits.None? then None
    else Some(if signed && t[0] == '-' then -(Value(digits.value) as int) else Value(digits.value))
  }

  predicate AllBlank(s: string) { forall i | 0 <= i < |s| :: IsBlank(s[i]) }

  lemma {:induction false} TrimOf(before: string, word: string, behind: string)
    requires AllBlank(before) && AllBlank(behind)
    requires word != [] && !IsBlank(word[0]) && !IsBlank(word[|word| - 1])
    ensures Trim(before + (word + behind)) == word
    decreases |before| + |behind|
  {
    hide IsBlank;
    var s := before + (word + behind);
    if before != [] {
      assert s[0] == before[0] && s[1..] == before[1..] + (word + behind);
      TrimOf(before[1..], word, behind);
    } else {
      assert s == word + behind && s[0] == word[0];
      if behind != [] {
        assert s[|s| - 1] == behind[|behind| - 1] && s[..|s| - 1] == before + (word + behind[..|behind| - 1]);
        TrimOf(before, word, behind[..|behind| - 1]);
      } else {
        assert s == word;
      }
    }
  }

  lemma {:induction false} DigitsOfDigits(s: string, afterDigit: bool)
    requires AllDigits(s) && (s != [] || afterDigit)
    ensures DigitsOf(s, afterDigit) == Some(s)
  {
    if s != [] {
      DigitsOfDigits(s[1..], true);
      assert s == [s[0]] + s[1..];
    }
  }

  /** A decimal with or without a sign, and with any blanks around it, is the number it shows. */
  lemma IntOfShown(n: nat, sign: string, before: string, behind: string)
    requires sign in {"", "+", "-"} && AllBlank(before) && AllBlank(behind)
    ensures IntOf(before + ((sign + Show(n)) + behind)) == Some(if sign == "-" then -(n as int) else n)
  {
    hide Value, Show, Trim, DigitsOf, AllBlank;
    var word := sign + Show(n);
    ShowIsCanonical(n);
    SignThenDigits(sign, Show(n));
    TrimOf(before, word, behind);
    DigitsOfDigits(Show(n), false);
  }

  lemma SignThenDigits(sign: string, digits: string)
    requires sign in {"", "+", "-"} && digits != [] && AllDigits(digits)
    ensures var word := sign + digits;
      && word != [] && !IsBlank(word[0]) && !IsBlank(word[|word| - 1])
      && (if sign == "" then word == digits && word[0] !in {'-', '+'} else word[0] in {'-', '+'} && word[1..] == digits)
      && (word[0] == '-' <==> sign == "-")
  {
    var word := sign + digits;
    assert word[|word| - 1] == digits[|digits| - 1];
    if sign == "" { assert word == digits; } else { assert |sign| == 1 && word[0] == sign[0] && word[1..] == digits; }
  }

  function Key(r: Row): int { if IntOf(r.id).Some? then IntOf(r.id).value else 0 }

  predicate IsImage(r: Row) { r.fsize > 0 && !r.deleted }

  // ----- sorted(rows, key=...) -----

  /** After every row whose key is not greater. */
  function Insert(sorted: seq<Row>, r: Row): seq<Row> {
    if sorted == [] || Key(sorted[|sorted| - 1]) <= Key(r) then sorted + [r]
    else Insert(sorted[..|sorted| - 1], r) + [sorted[|sorted| - 1]]
  }

  /** A stable sort. */
  function Sort(rows: seq<Row>): seq<Row> {
    if rows == [] then [] else Insert(Sort(rows[..|rows| - 1]), rows[|rows| - 1])
  }

  ghost predicate Ascending(rows: seq<Row>) {
    forall i, j | 0 <= i < j < |rows| :: Key(rows[i]) <= Key(rows[j])
  }

  lemma {:induction false} InsertSorts(sorted: seq<Row>, r: Row)
    requires Ascending(sorted)
    ensures Ascending(Insert(sorted, r))
    ensures multiset(Insert(sorted, r)) == multiset(sorted) + multiset{r}
  {
    hide Key;
    if sorted != [] && Key(sorted[|sorted| - 1]) > Key(r) {
      var front, last := sorted[..|sorted| - 1], sorted[|sorted| - 1];
      assert sorted == front + [last];
      InsertSorts(front, r);
      forall i | 0 <= i < |Insert(front, r)| ensures Key(Insert(front, r)[i]) <= Key(last) {
        assert Insert(front, r)[i] in multiset(Insert(front, r));
        assert Insert(front, r)[i] == r || Insert(front, r)[i] in front;
      }
    }
  }

  lemma {:induction false} SortSorts(rows: seq<Row>)
    ensures Ascending(Sort(rows)) && multiset(Sort(rows)) == multiset(rows) && |Sort(rows)| == |rows|
  {
    if rows != [] {
      var front, last := rows[..|rows| - 1], rows[|rows| - 1];
      assert rows == front + [last];
      SortSorts(front);
      InsertSorts(Sort(front), last);
    }
    assert |multiset(Sort(rows))| == |multiset(rows)|;
  }

  /** The rows of one key, in order. */
  function Only(rows: seq<Row>, key: int): seq<Row> {
    if rows == [] then []
    else Only(rows[..|rows| - 1], key) + if Key(rows[|rows| - 1]) == key then [rows[|rows| - 1]] else []
  }

  lemma {:induction false} InsertIsStable(sorted: seq<Row>, r: Row, key: int)
    requires Ascending(sorted)
    ensures Only(Insert(sorted, r), key) == Only(sorted, key) + if Key(r) == key then [r] else []
  {
    hide Key;
    if sorted == [] || Key(sorted[|sorted| - 1]) <= Key(r) {
      assert (sorted + [r])[..|sorted|] == sorted;
    } else {
      var front, last := sorted[..|sorted| - 1], sorted[|sorted| - 1];
      InsertIsStable(front, r, key);
      var placed := Insert(front, r) + [last];
      assert placed[..|placed| - 1] == Insert(front, r);
      if Key(last) == key { assert Key(r) != key; }
    }
  }

  /** Rows of equal key keep their input order. */
  lemma {:induction false} SortIsStable(rows: seq<Row>, key: int)
    ensures Only(Sort(rows), key) == Only(rows, key)
  {
    if rows != [] {
      SortIsStable(rows[..|rows| - 1], key);
      SortSorts(rows[..|rows| - 1]);
      InsertIsStable(Sort(rows[..|rows| - 1]), rows[|rows| - 1], key);
    }
  }

  ghost predicate DistinctKeys(rows: seq<Row>) {
    forall i, j | 0 <= i < j < |rows| :: Key(rows[i]) != Key(rows[j])
  }

  lemma LastIsGreatest(a: seq<Row>, r: Row)
    requires Ascending(a) && r in a
    ensures Key(r) <= Key(a[|a| - 1])
  {
  }

  /** No two different rows share a key. */
  ghost predicate KeysTell(rows: seq<Row>) {
    forall r, s | r in rows && s in rows && Key(r) == Key(s) :: r == s
  }

  lemma SameRows(a: seq<Row>, b: seq<Row>)
    requires multiset(a) == multiset(b)
    ensures |a| == |b| && forall r :: r in a <==> r in b
  {
    assert |multiset(a)| == |multiset(b)|;
    forall r ensures r in a <==> r in b { assert r in multiset(a) <==> r in multiset(b); }
  }

  lemma LastsAgree(a: seq<Row>, b: seq<Row>)
    requires Ascending(a) && Ascending(b) && a != [] && b != []
    requires forall r :: r in a <==> r in b
    requires KeysTell(a)
    ensures a[|a| - 1] == b[|b| - 1]
  {
    hide Key;
    LastIsGreatest(a, b[|b| - 1]);
    LastIsGreatest(b, a[|a| - 1]);
  }

  lemma FrontsKeep(front: seq<Row>, last: Row)
    requires Ascending(front + [last]) && KeysTell(front + [last])
    ensures Ascending(front) && KeysTell(front)
  {
    hide Key;
    var rows := front + [last];
    forall i, j | 0 <= i < j < |front| ensures Key(front[i]) <= Key(front[j]) {
      assert rows[i] == front[i] && rows[j] == front[j];
    }
  }

  /** Two ascending lists of the same rows, with distinct keys, are the same list. */
  lemma {:induction false} AscendingIsUnique(a: seq<Row>, b: seq<Row>)
    requires Ascending(a) && Ascending(b) && multiset(a) == multiset(b) && KeysTell(a)
    ensures a == b
  {
    hide Ascending, KeysTell;
    SameRows(a, b);
    if a != [] {
      LastsAgree(a, b);
      var front, back, x := a[..|a| - 1], b[..|b| - 1], a[|a| - 1];
      assert a == front + [x];
      assert b == back + [x];
      KeysTellAlike(a, b);
      FrontsKeep(front, x);
      FrontsKeep(back, x);
      SameWithoutLast(front, back, x);
      AscendingIsUnique(front, back);
    }
  }

  lemma KeysTellAlike(a: seq<Row>, b: seq<Row>)
    requires KeysTell(a) && forall r :: r in a <==> r in b
    ensures KeysTell(b)
  {
  }

  lemma SameWithoutLast(a: seq<Row>, b: seq<Row>, r: Row)
    requires multiset(a + [r]) == multiset(b + [r])
    ensures multiset(a) == multiset(b)
  {
    assert multiset(a) == multiset(a + [r]) - multiset{r};
    assert multiset(b) == multiset(b + [r]) - multiset{r};
  }

  // ----- derive -----

  datatype Preview = Preview(replies: nat, images: nat, omitted: Option<(int, int)>)
  datatype Full = Full(replies: nat, images: nat, uniqueIps: Option<nat>)

  /** What `derive` returns. */
  datatype Derived = Derived(
    limit: nat, visible: seq<string>, replyCount: nat, imageCount: nat, visibleImages: nat,
    omittedPosts: int, omittedImages: int,
    index: (seq<string>, Preview), catalogExtra: Preview, lastReplies: Option<seq<string>>,
    fullThread: (seq<string>, Full))

  function Ids(rows: seq<Row>): (ids: seq<string>)
    ensures |ids| == |rows|
    ensures forall i | 0 <= i < |ids| :: ids[i] == rows[i].id
  {
    if rows == [] then [] else Ids(rows[..|rows| - 1]) + [rows[|rows| - 1].id]
  }

  function Images(rows: seq<Row>): nat {
    if rows == [] then 0 else Images(rows[..|rows| - 1]) + if IsImage(rows[|rows| - 1]) then 1 else 0
  }

  /** The number of places that hold a file that is not empty and not deleted. */
  lemma {:induction false} ImagesCount(rows: seq<Row>)
    ensures Images(rows) == |ImagePlaces(rows)|
  {
    if rows == [] {
      assert ImagePlaces(rows) == {};
    } else {
      var n := |rows| - 1;
      ImagesCount(rows[..n]);
      assert ImagePlaces(rows) == ImagePlaces(rows[..n]) + if IsImage(rows[n]) then {n} else {};
    }
  }

  function ImagePlaces(rows: seq<Row>): set<nat> {
    set i: nat | i < |rows| && rows[i].fsize > 0 && !rows[i].deleted
  }

  function Limit(configured: nat, sticky: bool): nat { if sticky && configured > 1 then 1 else configured }

  /** rows[-n:] if n else [] */
  function Last(rows: seq<Row>, n: nat): seq<Row> { if n < |rows| then rows[|rows| - n..] else rows }

  predicate Accepts(configured: nat, rows: seq<Row>) {
    && configured in {0, 1, 3, 5}
    && (forall i | 0 <= i < |rows| :: IntOf(rows[i].id).Some?)
    && (forall i, j | 0 <= i < j < |rows| :: rows[i].id != rows[j].id)
  }

  /** The result, from the sorted thread. */
  function Describe(limit: nat, d: Data, rows: seq<Row>): Derived {
    var selected := Selected(rows, limit);
    var preview := Preview(|rows|, Images(rows),
                           if |rows| > limit then Some((|rows| - limit, Images(rows) - Images(selected))) else None);
    Derived(limit, Ids(selected), |rows|, Images(rows), Images(selected),
            |rows| - |selected|, Images(rows) - Images(selected),
            ([d.op] + Ids(selected), preview), preview, if |rows| > 0 then Some(Ids(selected)) else None,
            ([d.op] + Ids(rows), Full(|rows|, Images(rows), if d.showUniques && d.uniqueIps != 0 then Some(d.uniqueIps) else None)))
  }

  /** None is a ValueError. */
  function Derive(configured: nat, sticky: bool, d: Data): Option<Derived> {
    if Accepts(configured, d.replies) then Some(Describe(Limit(configured, sticky), d, Sort(d.replies))) else None
  }

  // ----- What it promises -----

  lemma {:induction false} ImagesAppend(a: seq<Row>, b: seq<Row>)
    ensures Images(a + b) == Images(a) + Images(b)
  {
    if b == [] {
      assert a + b == a;
    } else {
      assert (a + b)[..|a + b| - 1] == a + b[..|b| - 1];
      ImagesAppend(a, b[..|b| - 1]);
    }
  }

  lemma {:induction false} IdsAppend(a: seq<Row>, b: seq<Row>)
    ensures Ids(a + b) == Ids(a) + Ids(b)
  {
  }

  function Selected(rows: seq<Row>, limit: nat): seq<Row> { if limit == 0 then [] else Last(rows, limit) }

  lemma SelectedIsSuffix(rows: seq<Row>, limit: nat)
    ensures var selected := Selected(rows, limit);
      && |selected| == (if limit < |rows| then limit else |rows|)
      && rows == rows[..|rows| - |selected|] + selected
      && Ids(rows) == Ids(rows[..|rows| - |selected|]) + Ids(selected)
      && Images(rows) == Images(rows[..|rows| - |selected|]) + Images(selected)
  {
    var selected := Selected(rows, limit);
    var hidden := rows[..|rows| - |selected|];
    assert rows == hidden + selected;
    ImagesAppend(hidden, selected);
    IdsAppend(hidden, selected);
  }

  /** The books of one preview `r` of the sorted thread `rows`. */
  ghost predicate Accounts(r: Derived, d: Data, rows: seq<Row>) {
    && |r.visible| <= r.replyCount == |rows|
    && var hidden := rows[..r.replyCount - |r.visible|];
    && r.fullThread.0 == [d.op] + (Ids(hidden) + r.visible)
    && r.index.0 == [d.op] + r.visible
    && r.omittedPosts == |hidden| && r.replyCount == |r.visible| + r.omittedPosts
    && r.omittedImages == Images(hidden) && r.imageCount == r.visibleImages + r.omittedImages
    && r.index.1 == r.catalogExtra
    && (r.index.1.omitted.Some? <==> r.omittedPosts > 0)
    && (r.index.1.omitted.Some? ==> r.index.1.omitted.value == (r.omittedPosts, r.omittedImages))
    && r.index.1.replies == r.replyCount == r.fullThread.1.replies
    && r.index.1.images == r.imageCount == r.fullThread.1.images
    && r.imageCount == Images(rows)
    && r.lastReplies == (if r.replyCount > 0 then Some(r.visible) else None)
    && r.fullThread.1.uniqueIps == (if d.showUniques && d.uniqueIps > 0 then Some(d.uniqueIps) else None)
  }

  lemma DescribeAccounts(limit: nat, d: Data, rows: seq<Row>)
    ensures Accounts(Describe(limit, d, rows), d, rows)
  {
    SelectedIsSuffix(rows, limit);
    hide Images, Ids, Selected;
  }

  /** The visible replies are the end of the full thread; totals are visible plus omitted, for
      posts and images alike; and the published difference, when present, is that difference. */
  lemma PreviewAccounts(configured: nat, sticky: bool, d: Data)
    requires Accepts(configured, d.replies)
    ensures Accounts(Derive(configured, sticky, d).value, d, Sort(d.replies))
    ensures var n := if sticky && configured > 1 then 1 else configured;
      |Derive(configured, sticky, d).value.visible| == (if |d.replies| < n then |d.replies| else n)
      && Derive(configured, sticky, d).value.limit == n
    ensures Ascending(Sort(d.replies)) && multiset(Sort(d.replies)) == multiset(d.replies)
  {
    SortSorts(d.replies);
    SelectedIsSuffix(Sort(d.replies), Limit(configured, sticky));
    assert |Derive(configured, sticky, d).value.visible| == |Selected(Sort(d.replies), Limit(configured, sticky))|;
    hide Accounts, Describe, Selected, Ids, Images;
    DescribeAccounts(Limit(configured, sticky), d, Sort(d.replies));
  }

  /** Making a thread sticky only shortens its preview, from the front. */
  lemma StickyIsSuffix(configured: nat, d: Data)
    requires Accepts(configured, d.replies)
    ensures var a, b := Derive(configured, false, d).value, Derive(configured, true, d).value;
      |b.visible| <= |a.visible| && |b.visible| <= 1 &&
      b.visible == a.visible[|a.visible| - |b.visible|..]
  {
    SortSorts(d.replies);
  }

  function Reverse(rows: seq<Row>): (r: seq<Row>)
    ensures |r| == |rows| && multiset(r) == multiset(rows)
    ensures forall i | 0 <= i < |r| :: r[i] == rows[|rows| - 1 - i]
  {
    if rows == [] then []
    else
      assert rows == rows[..|rows| - 1] + [rows[|rows| - 1]];
      [rows[|rows| - 1]] + Reverse(rows[..|rows| - 1])
  }

  lemma {:induction false} OnlyAppend(a: seq<Row>, b: seq<Row>, key: int)
    ensures Only(a + b, key) == Only(a, key) + Only(b, key)
  {
    if b == [] {
      assert a + b == a;
    } else {
      assert (a + b)[..|a + b| - 1] == a + b[..|b| - 1];
      OnlyAppend(a, b[..|b| - 1], key);
    }
  }

  lemma ReverseAppend(rows: seq<Row>, r: Row)
    ensures Reverse(rows + [r]) == [r] + Reverse(rows)
    ensures Reverse(rows + []) == Reverse(rows)
  {
    assert (rows + [r])[..|rows|] == rows;
    assert rows + [] == rows;
  }

  lemma {:induction false} OnlyReverse(rows: seq<Row>, key: int)
    ensures Only(Reverse(rows), key) == Reverse(Only(rows, key))
  {
    hide Key;
    if rows != [] {
      var front, last := rows[..|rows| - 1], rows[|rows| - 1];
      OnlyAppend([last], Reverse(front), key);
      OnlyReverse(front, key);
      assert Only([last], key) == if Key(last) == key then [last] else [] by { assert [last][..0] == []; }
      hide Only;
      ReverseAppend(Only(front, key), last);
    }
  }

  lemma {:induction false} OnlyHolds(rows: seq<Row>, i: nat, key: int)
    requires i < |rows| && Key(rows[i]) == key
    ensures exists k | 0 <= k < |Only(rows, key)| :: Only(rows, key)[k] == rows[i]
    ensures forall j | 0 <= j < i && Key(rows[j]) == key :: |Only(rows, key)| >= 2
  {
    hide Key;
    var front := rows[..|rows| - 1];
    if i < |front| {
      OnlyHolds(front, i, key);
      var k :| 0 <= k < |Only(front, key)| && Only(front, key)[k] == front[i];
      assert Only(rows, key)[k] == rows[i];
    } else {
      assert Only(rows, key)[|Only(rows, key)| - 1] == rows[i];
      forall j | 0 <= j < i && Key(rows[j]) == key ensures |Only(rows, key)| >= 2 {
        assert front[j] == rows[j];
        OnlyHolds(front, j, key);
      }
    }
  }

  lemma {:induction false} OnlyMembers(rows: seq<Row>, key: int)
    ensures forall k | 0 <= k < |Only(rows, key)| :: Only(rows, key)[k] in rows
    ensures (forall i, j | 0 <= i < j < |rows| :: rows[i] != rows[j]) ==>
      forall i, j | 0 <= i < j < |Only(rows, key)| :: Only(rows, key)[i] != Only(rows, key)[j]
  {
    hide Key;
    if rows != [] {
      var front, last := rows[..|rows| - 1], rows[|rows| - 1];
      OnlyMembers(front, key);
      assert forall i | 0 <= i < |front| :: front[i] == rows[i];
      assert forall r :: r in rows <==> r in front || r == last;
      var only := Only(front, key);
      assert Only(rows, key) == only + if Key(last) == key then [last] else [];
      hide Only;
      assert forall k | 0 <= k < |only| :: only[k] in front;
    }
  }

  /** If equal numeric ids occur, reading the replies backwards sorts them differently. */
  lemma EqualKeysShow(rows: seq<Row>, i: nat, j: nat)
    requires i < j < |rows| && Key(rows[i]) == Key(rows[j])
    requires forall a, b | 0 <= a < b < |rows| :: rows[a] != rows[b]
    ensures Sort(rows) != Sort(Reverse(rows))
  {
    var key := Key(rows[i]);
    var only := Only(rows, key);
    SortIsStable(rows, key);
    SortIsStable(Reverse(rows), key);
    OnlyReverse(rows, key);
    OnlyHolds(rows, j, key);
    OnlyMembers(rows, key);
    hide Sort, Only;
    assert only[0] != only[|only| - 1];
    assert Reverse(only)[0] == only[|only| - 1];
  }

  lemma AcceptsPermuted(configured: nat, a: seq<Row>, b: seq<Row>)
    requires multiset(a) == multiset(b) && Accepts(configured, a)
    ensures Accepts(configured, b)
  {
    hide IntOf;
    assert |multiset(a)| == |multiset(b)|;
    forall i | 0 <= i < |b| ensures IntOf(b[i].id).Some? {
      assert b[i] in multiset(a);
      assert b[i] in a;
    }
    forall i, j | 0 <= i < j < |b| ensures b[i].id != b[j].id {
      if b[i].id == b[j].id { SameIdTwice(a, b, i, j); }
    }
  }

  lemma SameIdTwice(a: seq<Row>, b: seq<Row>, i: nat, j: nat)
    requires multiset(a) == multiset(b) && i < j < |b| && b[i].id == b[j].id
    ensures exists k, l | 0 <= k < l < |a| :: a[k].id == a[l].id
  {
    var rest := b[..i] + b[i + 1..j] + b[j + 1..];
    assert b == b[..i] + [b[i]] + b[i + 1..j] + [b[j]] + b[j + 1..];
    assert multiset(b) == multiset(rest) + multiset{b[i], b[j]};
    if b[i] == b[j] {
      assert multiset(a)[b[i]] >= 2;
      TwiceInSeq(a, b[i]);
    } else {
      assert b[i] in multiset(a) && b[j] in multiset(a);
      var k :| 0 <= k < |a| && a[k] == b[i];
      var l :| 0 <= l < |a| && a[l] == b[j];
      if k < l { assert a[k].id == a[l].id; } else { assert a[l].id == a[k].id; }
    }
  }

  lemma {:induction false} TwiceInSeq(a: seq<Row>, r: Row)
    requires multiset(a)[r] >= 2
    ensures exists k, l | 0 <= k < l < |a| :: a[k].id == a[l].id
  {
    var front, last := a[..|a| - 1], a[|a| - 1];
    assert a == front + [last];
    if last == r {
      assert r in multiset(front);
      var k :| 0 <= k < |front| && front[k] == r;
      assert a[k].id == a[|a| - 1].id;
    } else {
      TwiceInSeq(front, r);
      var k, l :| 0 <= k < l < |front| && front[k].id == front[l].id;
      assert a[k].id == a[l].id;
    }
  }

  lemma IdsInjective(a: seq<Row>, s: seq<Row>, t: seq<Row>)
    requires multiset(s) == multiset(a) && multiset(t) == multiset(a) && Ids(s) == Ids(t)
    requires forall i, j | 0 <= i < j < |a| :: a[i].id != a[j].id
    ensures s == t
  {
    assert |s| == |Ids(s)| == |Ids(t)| == |t|;
    forall i | 0 <= i < |s| ensures s[i] == t[i] {
      assert Ids(s)[i] == s[i].id && Ids(t)[i] == t[i].id;
      assert s[i] in multiset(a) && t[i] in multiset(a);
      assert s[i] in a && t[i] in a;
    }
  }

  /** The result depends on the set of replies alone, whatever their order, if and only if no two
      of them have the same numeric id ("1" and "01" pass the duplicate check). */
  lemma OrderIndependentIff(configured: nat, sticky: bool, d: Data)
    requires Accepts(configured, d.replies)
    ensures (forall replies: seq<Row> | multiset(replies) == multiset(d.replies) ::
               Derive(configured, sticky, d.(replies := replies)) == Derive(configured, sticky, d))
       <==> DistinctKeys(d.replies)
  {
    var a := d.replies;
    if DistinctKeys(a) {
      forall b: seq<Row> | multiset(b) == multiset(a)
        ensures Derive(configured, sticky, d.(replies := b)) == Derive(configured, sticky, d)
      {
        AcceptsPermuted(configured, a, b);
        SortsAlike(a, b);
      }
    } else {
      var i, j :| 0 <= i < j < |a| && Key(a[i]) == Key(a[j]);
      var b := Reverse(a);
      AcceptsPermuted(configured, a, b);
      DistinctIdsDistinctRows(a);
      EqualKeysShow(a, i, j);
      SortSorts(a);
      SortSorts(b);
      if Ids(Sort(a)) == Ids(Sort(b)) { IdsInjective(a, Sort(a), Sort(b)); }
      FullThreadIds(configured, sticky, d);
      FullThreadIds(configured, sticky, d.(replies := b));
      hide Derive, Sort, Ids, Accepts, Reverse;
      assert Derive(configured, sticky, d.(replies := b)) != Derive(configured, sticky, d);
    }
  }

  /** Such replies are accepted. */
  lemma EqualKeysAccepted(rows: seq<Row>)
    requires rows == [Row("1", 0, false), Row("01", 0, false)]
    ensures Accepts(1, rows) && !DistinctKeys(rows)
  {
    var one, padded := rows[0].id, rows[1].id;
    assert padded[1..] == one && one[1..] == [];
    assert DigitsOf(one[1..], true) == Some([]);
    assert DigitsOf(one, true) == DigitsOf(one, false) == Some(['1'] + []);
    assert ['1'] + [] == one;
    assert DigitsOf(padded, false) == Some(['0'] + one);
    assert ['0'] + one == padded;
    assert Trim(one) == one && Trim(padded) == padded;
    assert one[..0] == [] && padded[..1] == ['0'] && ['0'][..0] == [];
    assert Value(['0']) == 0 && Value(one) == 1 && Value(padded) == 1;
    assert Key(rows[0]) == 1 && Key(rows[1]) == 1;
  }

  lemma FullThreadIds(configured: nat, sticky: bool, d: Data)
    requires Accepts(configured, d.replies)
    ensures Derive(configured, sticky, d).Some?
    ensures Derive(configured, sticky, d).value.fullThread.0[1..] == Ids(Sort(d.replies))
  {
    var ids := Ids(Sort(d.replies));
    assert ([d.op] + ids)[1..] == ids;
  }

  lemma DistinctIdsDistinctRows(a: seq<Row>)
    requires forall i, j | 0 <= i < j < |a| :: a[i].id != a[j].id
    ensures forall i, j | 0 <= i < j < |a| :: a[i] != a[j]
  {
    forall i, j | 0 <= i < j < |a| ensures a[i] != a[j] { assert a[i].id != a[j].id; }
  }

  lemma SortsAlike(a: seq<Row>, b: seq<Row>)
    requires multiset(a) == multiset(b) && DistinctKeys(a)
    ensures Sort(a) == Sort(b)
  {
    SortSorts(a);
    SortSorts(b);
    hide Key, Sort;
    forall r, s | r in Sort(a) && s in Sort(a) && Key(r) == Key(s) ensures r == s {
      assert r in multiset(a) && s in multiset(a);
      assert r in a && s in a;
    }
    AscendingIsUnique(Sort(a), Sort(b));
  }

  // ----- The function body -----

  function IdSet(rows: seq<Row>): set<string> { set r | r in rows :: r.id }

  lemma IdSetAppend(front: seq<Row>, last: Row)
    ensures IdSet(front + [last]) == IdSet(front) + {last.id}
    ensures last.id in IdSet(front) <==> exists i | 0 <= i < |front| :: front[i].id == last.id
  {
    var rows := front + [last];
    assert forall r :: r in rows <==> r in front || r == last;
    if i :| 0 <= i < |front| && front[i].id == last.id { assert front[i] in front; }
  }

  lemma DistinctFront(front: seq<Row>, last: Row)
    ensures var rows := front + [last];
      (forall i, j | 0 <= i < j < |rows| :: rows[i].id != rows[j].id) <==>
      (forall i, j | 0 <= i < j < |front| :: front[i].id != front[j].id) && !exists i | 0 <= i < |front| :: front[i].id == last.id
  {
    var rows := front + [last];
    assert forall i | 0 <= i < |front| :: rows[i] == front[i];
    assert rows[|front|] == last;
  }

  /** len({row['id'] for row in rows}) == len(rows) */
  lemma {:induction false} DistinctIdsCount(rows: seq<Row>)
    ensures |IdSet(rows)| <= |rows|
    ensures |IdSet(rows)| == |rows| <==> forall i, j | 0 <= i < j < |rows| :: rows[i].id != rows[j].id
  {
    if rows == [] {
      assert IdSet(rows) == {};
    } else {
      hide IdSet;
      var front, last := rows[..|rows| - 1], rows[|rows| - 1];
      assert rows == front + [last];
      DistinctIdsCount(front);
      IdSetAppend(front, last);
      DistinctFront(front, last);
    }
  }

  /** sum(image(row) for row in rows) */
  method CountImages(rows: seq<Row>) returns (n: nat)
    ensures n == Images(rows)
  {
    n := 0;
    for i := 0 to |rows|
      invariant n == Images(rows[..i])
    {
      assert rows[..i + 1][..i] == rows[..i];
      if IsImage(rows[i]) { n := n + 1; }
    }
    assert rows[..|rows|] == rows;
  }

  /** [row['id'] for row in rows] */
  method ListIds(rows: seq<Row>) returns (ids: seq<string>)
    ensures ids == Ids(rows)
  {
    ids := [];
    for i := 0 to |rows|
      invariant ids == Ids(rows[..i])
    {
      assert rows[..i + 1][..i] == rows[..i];
      ids := ids + [rows[i].id];
    }
    assert rows[..|rows|] == rows;
  }

  /** What is accepted: one of four limits, numerals for ids, and no id twice. */
  lemma AcceptsIff(configured: nat, rows: seq<Row>)
    ensures Accepts(configured, rows) <==>
      && (configured == 0 || configured == 1 || configured == 3 || configured == 5)
      && (forall i | 0 <= i < |rows| :: IntOf(rows[i].id).Some?)
      && |IdSet(rows)| == |rows|
  {
    DistinctIdsCount(rows);
    hide IntOf, IdSet;
  }

  /** The checks before anything is derived, in order. */
  method Check(configured: nat, rows: seq<Row>) returns (ok: bool)
    ensures ok == Accepts(configured, rows)
  {
    hide IntOf;
    if configured !in {0, 1, 3, 5} { return false; }
    for i := 0 to |rows|
      invariant forall j | 0 <= j < i :: IntOf(rows[j].id).Some?
    {
      if IntOf(rows[i].id).None? { return false; }
    }
    DistinctIdsCount(rows);
    ok := |IdSet(rows)| == |rows|;
  }

  /** The rest of the body, on the sorted rows. */
  method DescribeThread(limit: nat, d: Data, rows: seq<Row>) returns (r: Derived)
    ensures r == Describe(limit, d, rows)
  {
    hide Ids, Images;
    var selected := if limit == 0 then [] else Last(rows, limit);
    var ids := ListIds(selected);
    var images := CountImages(rows);
    var selectedImages := CountImages(selected);
    var omitted: Option<(int, int)> := None;
    if |rows| > limit { omitted := Some((|rows| - limit, images as int - selectedImages as int)); }
    var uniques: Option<nat> := None;
    if d.showUniques && d.uniqueIps != 0 { uniques := Some(d.uniqueIps); }
    var all := ListIds(rows);
    var preview := Preview(|rows|, images, omitted);
    r := Derived(limit, ids, |rows|, images, selectedImages, |rows| - |selected|, images as int - selectedImages as int,
                 ([d.op] + ids, preview), preview, if |rows| > 0 then Some(ids) else None,
                 ([d.op] + all, Full(|rows|, images, uniques)));
  }

  method DeriveThread(configured: nat, sticky: bool, d: Data) returns (r: Option<Derived>)
    ensures r == Derive(configured, sticky, d)
  {
    hide Sort, Accepts, Describe;
    var ok := Check(configured, d.replies);
    if !ok { return None; }
    var limit := if sticky then (if configured > 1 then 1 else configured) else configured;
    var described := DescribeThread(limit, d, Sort(d.replies));
    return Some(described);
  }
}
