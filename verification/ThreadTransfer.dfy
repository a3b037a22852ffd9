/** scripts/extract-thread-transfer-reference.py: post references in a moved comment are
    rewritten by literal, sequential substring replacement. */
module ThreadTransfer {
  import opened Decimals

  const MARK := "&gt;&gt;"

  datatype Pair = Pair(from: string, to: string)

  /** An id as the validator accepts it: `[1-9][0-9]*`, at most 2^63 - 1. */
  predicate IsId(s: string) {
    s != [] && AllDigits(s) && s[0] != '0' && Value(s) <= 0x7fff_ffff_ffff_ffff
  }

  predicate Digits(s: string) { s != [] && AllDigits(s) }

  ghost predicate DigitPairs(pairs: seq<Pair>) {
    forall i | 0 <= i < |pairs| :: Digits(pairs[i].from) && Digits(pairs[i].to)
  }

  /** `str.replace`: left to right, non-overlapping, never rescanning what it wrote. */
  function Replace(s: string, pat: string, rep: string): string
    requires pat != []
  {
    if s == [] then []
    else if pat <= s then rep + Replace(s[|pat|..], pat, rep)
    else [s[0]] + Replace(s[1..], pat, rep)
  }

  /** All passes, in order. */
  function Rewrite(s: string, pairs: seq<Pair>): string {
    if pairs == [] then s
    else
      var last := pairs[|pairs| - 1];
      Replace(Rewrite(s, pairs[..|pairs| - 1]), MARK + last.from, MARK + last.to)
  }

  // ----- Reading a comment as tokens -----

  /** A character of ordinary text, or a reference: the marker and all digits after it. */
  datatype Token = Text(c: char) | Quote(id: string)

  /** The longest digit prefix, and the rest. */
  function SplitDigits(s: string): (r: (string, string))
    ensures s == r.0 + r.1 && AllDigits(r.0)
    ensures r.1 == [] || !IsDigit(r.1[0])
    ensures s != [] && IsDigit(s[0]) ==> r.0 != []
  {
    if s == [] || !IsDigit(s[0]) then ([], s)
    else
      var (digits, rest) := SplitDigits(s[1..]);
      assert s == [s[0]] + s[1..];
      ([s[0]] + digits, rest)
  }

  predicate StartsQuote(s: string) {
    |s| > 8 && s[..8] == MARK && IsDigit(s[8])
  }

  function Tokens(s: string): seq<Token>
    decreases |s|
  {
    if s == [] then []
    else if StartsQuote(s) then
      var (id, rest) := SplitDigits(s[8..]);
      [Quote(id)] + Tokens(rest)
    else [Text(s[0])] + Tokens(s[1..])
  }

  function Render(tokens: seq<Token>): string {
    if tokens == [] then []
    else (if tokens[0].Text? then [tokens[0].c] else MARK + tokens[0].id) + Render(tokens[1..])
  }

  /** Same text, references in the same places, every reference still a digit string. */
  ghost predicate Similar(ts: seq<Token>, us: seq<Token>) {
    |ts| == |us| &&
    forall i | 0 <= i < |ts| ::
      if ts[i].Text? then us[i] == ts[i] else us[i].Quote? && Digits(us[i].id)
  }

  lemma SimilarTail(ts: seq<Token>, us: seq<Token>)
    requires ts != [] && Similar(ts, us)
    ensures Similar(ts[1..], us[1..])
  {
  }

  lemma {:induction false} RenderTokens(s: string)
    ensures Render(Tokens(s)) == s
    decreases |s|
  {
    if s == [] {
    } else if StartsQuote(s) {
      var (id, rest) := SplitDigits(s[8..]);
      RenderTokens(rest);
      assert s == MARK + id + rest;
    } else {
      RenderTokens(s[1..]);
    }
  }

  /** The text from position `k` of the marker on, then a digit. */
  ghost predicate Ahead(k: nat, s: string)
    requires k <= 8
  {
    MARK[k..] <= s && |s| > 8 - k && IsDigit(s[8 - k])
  }

  lemma AheadStep(k: nat, c: char, s: string)
    requires k < 8
    ensures Ahead(k, [c] + s) <==> c == MARK[k] && Ahead(k + 1, s)
  {
    var t := [c] + s;
    assert MARK[k..] == [MARK[k]] + MARK[k + 1..];
    assert t[1..] == s;
    if Ahead(k, t) {
      assert t[..|MARK[k..]|] == MARK[k..];
      assert s[..8 - k - 1] == t[..8 - k][1..];
    }
    if c == MARK[k] && Ahead(k + 1, s) {
      assert t[..8 - k] == [c] + s[..8 - k - 1];
    }
  }

  /** Inside the marker, a reference can never begin: its text cannot complete the marker. */
  lemma NotAheadOfQuote(k: nat, id: string, rest: string)
    requires 0 < k <= 8 && Digits(id)
    ensures !Ahead(k, MARK + id + rest)
  {
    var s := MARK + id + rest;
    assert s[0] == '&' && s[4] == '&';
    if k < 8 { assert MARK[k..][0] == MARK[k]; }
  }

  /** Changing the ids of references does not change what is ahead of plain text. */
  lemma {:induction false} AheadSame(k: nat, s: string, us: seq<Token>)
    requires 0 < k <= 8 && Similar(Tokens(s), us)
    ensures Ahead(k, Render(us)) <==> Ahead(k, s)
    decreases 8 - k
  {
    if s == [] {
    } else if StartsQuote(s) {
      var (id, rest) := SplitDigits(s[8..]);
      assert s == MARK + id + rest;
      NotAheadOfQuote(k, id, rest);
      NotAheadOfQuote(k, us[0].id, Render(us[1..]));
    } else {
      SimilarTail(Tokens(s), us);
      assert s == [s[0]] + s[1..];
      if k < 8 {
        AheadStep(k, s[0], s[1..]);
        AheadStep(k, s[0], Render(us[1..]));
        AheadSame(k + 1, s[1..], us[1..]);
      }
    }
  }

  lemma {:induction false} DigitsThenText(digits: string, rest: string)
    requires AllDigits(digits) && (rest == [] || !IsDigit(rest[0]))
    ensures SplitDigits(digits + rest) == (digits, rest)
  {
    if digits == [] {
      assert digits + rest == rest;
    } else {
      assert (digits + rest)[1..] == digits[1..] + rest;
      DigitsThenText(digits[1..], rest);
      assert digits == [digits[0]] + digits[1..];
    }
  }

  lemma TokensOfQuote(id: string, rest: string)
    requires Digits(id) && (rest == [] || !IsDigit(rest[0]))
    ensures Tokens(MARK + id + rest) == [Quote(id)] + Tokens(rest)
  {
    var r := MARK + id + rest;
    assert r[..8] == MARK && r[8] == id[0];
    assert r[8..] == id + rest;
    DigitsThenText(id, rest);
  }

  lemma TokensOfText(c: char, rest: string)
    requires !Ahead(0, [c] + rest)
    ensures Tokens([c] + rest) == [Text(c)] + Tokens(rest)
  {
    assert MARK[0..] == MARK;
    assert ([c] + rest)[1..] == rest;
  }

  /** Rendering after changing ids can be read back: references stay references, text stays text. */
  lemma {:induction false} TokensOfRender(s: string, us: seq<Token>)
    requires Similar(Tokens(s), us)
    ensures Tokens(Render(us)) == us
    decreases |s|
  {
    if s == [] {
    } else {
      var tail := Render(us[1..]);
      SimilarTail(Tokens(s), us);
      if StartsQuote(s) {
        var rest := SplitDigits(s[8..]).1;
        TokensOfRender(rest, us[1..]);
        AheadSame(8, rest, us[1..]);
        assert Ahead(8, tail) == Ahead(8, rest);
        TokensOfQuote(us[0].id, tail);
      } else {
        TokensOfRender(s[1..], us[1..]);
        TextStaysText(s, us);
        TokensOfText(s[0], tail);
      }
    }
  }

  lemma TextStaysText(s: string, us: seq<Token>)
    requires s != [] && !StartsQuote(s) && Similar(Tokens(s), us)
    ensures !Ahead(0, [s[0]] + Render(us[1..]))
  {
    assert MARK[0..] == MARK;
    assert s == [s[0]] + s[1..];
    AheadStep(0, s[0], s[1..]);
    AheadStep(0, s[0], Render(us[1..]));
    SimilarTail(Tokens(s), us);
    AheadSame(1, s[1..], us[1..]);
  }

  // ----- One pass -----

  function RenameId(id: string, pair: Pair): string {
    if pair.from <= id then pair.to + id[|pair.from|..] else id
  }

  function RenameTokens(tokens: seq<Token>, pair: Pair): (us: seq<Token>)
    ensures |us| == |tokens|
    ensures forall i | 0 <= i < |us| ::
      us[i] == if tokens[i].Text? then tokens[i] else Quote(RenameId(tokens[i].id, pair))
  {
    seq(|tokens|, i requires 0 <= i < |tokens| =>
      if tokens[i].Text? then tokens[i] else Quote(RenameId(tokens[i].id, pair)))
  }

  /** Text whose characters cannot start a match is copied. */
  lemma {:induction false} ReplaceSkips(text: string, rest: string, pat: string, rep: string)
    requires pat != []
    requires forall k | 0 <= k < |text| :: !(pat <= text[k..] + rest)
    ensures Replace(text + rest, pat, rep) == text + Replace(rest, pat, rep)
  {
    if text == [] {
      assert text + rest == rest;
    } else {
      assert text[0..] + rest == text + rest;
      assert (text + rest)[1..] == text[1..] + rest;
      forall k | 0 <= k < |text[1..]| ensures !(pat <= text[1..][k..] + rest) {
        assert text[1..][k..] == text[k + 1..];
      }
      ReplaceSkips(text[1..], rest, pat, rep);
    }
  }

  /** No match can begin inside a reference. */
  lemma NoMatchInside(id: string, rest: string, from: string, k: nat)
    requires Digits(id) && Digits(from) && 0 < k < 8 + |id|
    ensures !(MARK + from <= (MARK + id)[k..] + rest)
  {
    var s, pat := (MARK + id)[k..] + rest, MARK + from;
    assert s[0] == (MARK + id)[k];
    assert pat[0] == '&' && pat[4] == '&';
    assert k == 4 ==> s[4] == id[0];
  }

  lemma PatternMeetsRun(id: string, rest: string, from: string)
    requires Digits(id) && Digits(from) && (rest == [] || !IsDigit(rest[0]))
    ensures MARK + from <= MARK + id + rest <==> from <= id
  {
    var s := MARK + id + rest;
    var n := |from|;
    assert forall i | 0 <= i < |id + rest| :: s[8 + i] == (id + rest)[i];
    assert MARK + from <= s <==> from <= id + rest by {
      if MARK + from <= s { assert s[..8 + n][8..] == (id + rest)[..n]; }
      if from <= id + rest { assert s[..8 + n] == MARK + (id + rest)[..n]; }
    }
    if n <= |id| {
      assert (id + rest)[..n] == id[..n];
    } else if rest != [] {
      assert (id + rest)[|id|] != from[|id|];
    }
  }

  lemma ReplaceInQuote(id: string, rest: string, pair: Pair)
    requires Digits(pair.from) && Digits(id) && (rest == [] || !IsDigit(rest[0]))
    ensures Replace(MARK + id + rest, MARK + pair.from, MARK + pair.to)
         == MARK + RenameId(id, pair) + Replace(rest, MARK + pair.from, MARK + pair.to)
  {
    var pat, rep, s := MARK + pair.from, MARK + pair.to, MARK + id + rest;
    PatternMeetsRun(id, rest, pair.from);
    if pair.from <= id {
      var more := id[|pair.from|..];
      assert s[|pat|..] == more + rest;
      assert s[..|pat|] == pat;
      forall k | 0 <= k < |more| ensures !(pat <= more[k..] + rest) {
        assert (more[k..] + rest)[0] == more[k] == id[|pair.from| + k];
      }
      ReplaceSkips(more, rest, pat, rep);
    } else {
      forall k | 0 <= k < |MARK + id| ensures !(pat <= (MARK + id)[k..] + rest) {
        if k == 0 { assert (MARK + id)[0..] + rest == s; } else { NoMatchInside(id, rest, pair.from, k); }
      }
      ReplaceSkips(MARK + id, rest, pat, rep);
    }
  }

  lemma MatchStartsQuote(s: string, from: string)
    requires Digits(from) && MARK + from <= s
    ensures StartsQuote(s)
  {
    assert s[8] == (MARK + from)[8];
    assert s[..8] == (MARK + from)[..8];
  }

  /** One pass of literal replacement renames exactly the references whose id starts with the
      old id, and nothing else. */
  lemma {:induction false} ReplaceRenames(s: string, pair: Pair)
    requires Digits(pair.from) && Digits(pair.to)
    ensures Replace(s, MARK + pair.from, MARK + pair.to) == Render(RenameTokens(Tokens(s), pair))
    decreases |s|
  {
    if s == [] {
    } else if StartsQuote(s) {
      var (id, rest) := SplitDigits(s[8..]);
      assert s == MARK + id + rest;
      ReplaceRenames(rest, pair);
      RenameTail(Tokens(s), pair);
      ReplaceInQuote(id, rest, pair);
    } else {
      ReplaceRenames(s[1..], pair);
      RenameTail(Tokens(s), pair);
      if MARK + pair.from <= s { MatchStartsQuote(s, pair.from); }
    }
  }

  lemma RenameTail(ts: seq<Token>, pair: Pair)
    requires ts != []
    ensures RenameTokens(ts, pair)[1..] == RenameTokens(ts[1..], pair)
  {
  }

  lemma {:induction false} TokensHaveDigits(s: string)
    ensures Similar(Tokens(s), Tokens(s))
    decreases |s|
  {
    if s == [] {
    } else if StartsQuote(s) {
      TokensHaveDigits(SplitDigits(s[8..]).1);
    } else {
      TokensHaveDigits(s[1..]);
    }
  }

  // ----- All passes -----

  /** What the passes do to one id: a cascade of prefix renamings. */
  function Cascade(id: string, pairs: seq<Pair>): string {
    if pairs == [] then id else RenameId(Cascade(id, pairs[..|pairs| - 1]), pairs[|pairs| - 1])
  }

  lemma {:induction false} CascadeDigits(id: string, pairs: seq<Pair>)
    requires Digits(id) && DigitPairs(pairs)
    ensures Digits(Cascade(id, pairs))
  {
    if pairs != [] { CascadeDigits(id, pairs[..|pairs| - 1]); }
  }

  function CascadeTokens(tokens: seq<Token>, pairs: seq<Pair>): (us: seq<Token>)
    ensures |us| == |tokens|
    ensures forall i | 0 <= i < |us| ::
      us[i] == if tokens[i].Text? then tokens[i] else Quote(Cascade(tokens[i].id, pairs))
  {
    seq(|tokens|, i requires 0 <= i < |tokens| =>
      if tokens[i].Text? then tokens[i] else Quote(Cascade(tokens[i].id, pairs)))
  }

  lemma PassActsOnTokens(s: string, pair: Pair)
    requires Digits(pair.from) && Digits(pair.to)
    ensures Tokens(Replace(s, MARK + pair.from, MARK + pair.to)) == RenameTokens(Tokens(s), pair)
    ensures Similar(Tokens(s), RenameTokens(Tokens(s), pair))
    ensures Replace(s, MARK + pair.from, MARK + pair.to) == Render(RenameTokens(Tokens(s), pair))
  {
    ReplaceRenames(s, pair);
    TokensHaveDigits(s);
    TokensOfRender(s, RenameTokens(Tokens(s), pair));
  }

  /** The replacement passes act on tokens: text and the number and places of references never
      change, and each reference's id goes through the cascade on its own. */
  lemma {:induction false} RewriteActsOnTokens(s: string, pairs: seq<Pair>)
    requires DigitPairs(pairs)
    ensures Tokens(Rewrite(s, pairs)) == CascadeTokens(Tokens(s), pairs)
    ensures Rewrite(s, pairs) == Render(CascadeTokens(Tokens(s), pairs))
    ensures Similar(Tokens(s), Tokens(Rewrite(s, pairs)))
  {
    TokensHaveDigits(s);
    if pairs == [] {
      assert CascadeTokens(Tokens(s), pairs) == Tokens(s);
      RenderTokens(s);
    } else {
      var front, last := pairs[..|pairs| - 1], pairs[|pairs| - 1];
      RewriteActsOnTokens(s, front);
      PassActsOnTokens(Rewrite(s, front), last);
      assert RenameTokens(Tokens(Rewrite(s, front)), last) == CascadeTokens(Tokens(s), pairs);
    }
  }

  // ----- When it is an exact renaming -----

  /** The renaming a reader would expect: an id listed as old becomes its new id. */
  function Exact(id: string, pairs: seq<Pair>): string {
    if pairs == [] then id
    else
      var front, last := pairs[..|pairs| - 1], pairs[|pairs| - 1];
      if !Listed(id, front) && id == last.from then last.to else Exact(id, front)
  }

  predicate Listed(id: string, pairs: seq<Pair>) {
    exists i | 0 <= i < |pairs| :: pairs[i].from == id
  }

  function ExactTokens(tokens: seq<Token>, pairs: seq<Pair>): (us: seq<Token>)
    ensures |us| == |tokens|
    ensures forall i | 0 <= i < |us| ::
      us[i] == if tokens[i].Text? then tokens[i] else Quote(Exact(tokens[i].id, pairs))
  {
    seq(|tokens|, i requires 0 <= i < |tokens| =>
      if tokens[i].Text? then tokens[i] else Quote(Exact(tokens[i].id, pairs)))
  }

  function ExactRewrite(s: string, pairs: seq<Pair>): string {
    Render(ExactTokens(Tokens(s), pairs))
  }

  /** The id is quoted in the comment. */
  ghost predicate Quoted(id: string, s: string) { Quote(id) in Tokens(s) }

  /** Pass `k` leaves every other reference alone: its old id is no proper prefix of an id
      still in place, and no prefix of a new id that an earlier pass has written. */
  ghost predicate PassIsExact(id: string, pairs: seq<Pair>, k: nat)
    requires k < |pairs|
  {
    pairs[k].from == pairs[k].to ||
    if Listed(id, pairs[..k]) then !(pairs[k].from <= Exact(id, pairs[..k]))
    else pairs[k].from == id || !(pairs[k].from <= id)
  }

  lemma {:induction false} UnlistedIsKept(id: string, pairs: seq<Pair>)
    requires !Listed(id, pairs)
    ensures Exact(id, pairs) == id
  {
    if pairs != [] {
      var front := pairs[..|pairs| - 1];
      assert forall i | 0 <= i < |front| :: front[i] == pairs[i];
      UnlistedIsKept(id, front);
    }
  }

  lemma RenameChangesNothing(id: string, pair: Pair)
    ensures RenameId(id, pair) == id <==> !(pair.from <= id) || pair.from == pair.to
  {
    if pair.from <= id {
      assert id == pair.from + id[|pair.from|..];
      if RenameId(id, pair) == id {
        assert |pair.to| == |pair.from|;
        assert pair.to == RenameId(id, pair)[..|pair.to|];
      }
    }
  }

  lemma PassExactIff(id: string, pairs: seq<Pair>, k: nat)
    requires k < |pairs| && Cascade(id, pairs[..k]) == Exact(id, pairs[..k])
    ensures Cascade(id, pairs[..k + 1]) == Exact(id, pairs[..k + 1]) <==> PassIsExact(id, pairs, k)
  {
    var now := pairs[..k + 1];
    assert now[..k] == pairs[..k] && now[k] == pairs[k];
    var cur := Exact(id, pairs[..k]);
    assert Cascade(id, now) == RenameId(cur, pairs[k]);
    RenameChangesNothing(cur, pairs[k]);
    if !Listed(id, pairs[..k]) {
      UnlistedIsKept(id, pairs[..k]);
      if pairs[k].from == id { assert id[|id|..] == []; }
    }
  }

  /** For one id: every stage of the cascade is exact just when every pass is. */
  lemma {:induction false} CascadeExactIff(id: string, pairs: seq<Pair>, n: nat)
    requires n <= |pairs|
    ensures (forall k | 0 <= k <= n :: Cascade(id, pairs[..k]) == Exact(id, pairs[..k]))
        <==> (forall k | 0 <= k < n :: PassIsExact(id, pairs, k))
  {
    if n == 0 {
      assert pairs[..0] == [];
    } else {
      CascadeExactIff(id, pairs, n - 1);
      if forall k | 0 <= k <= n - 1 :: Cascade(id, pairs[..k]) == Exact(id, pairs[..k]) {
        PassExactIff(id, pairs, n - 1);
      }
    }
  }

  lemma {:induction false} RenderInjective(s: string, us: seq<Token>, vs: seq<Token>)
    requires Similar(Tokens(s), us) && Similar(Tokens(s), vs) && Render(us) == Render(vs)
    ensures us == vs
  {
    TokensOfRender(s, us);
    TokensOfRender(s, vs);
  }

  lemma {:induction false} ExactDigits(id: string, pairs: seq<Pair>)
    requires Digits(id) && DigitPairs(pairs)
    ensures Digits(Exact(id, pairs))
  {
    if pairs != [] { ExactDigits(id, pairs[..|pairs| - 1]); }
  }

  lemma RewriteExactIffIdsExact(s: string, pairs: seq<Pair>)
    requires DigitPairs(pairs)
    ensures Rewrite(s, pairs) == ExactRewrite(s, pairs)
       <==> forall id | Quoted(id, s) :: Cascade(id, pairs) == Exact(id, pairs)
  {
    var ts := Tokens(s);
    var us, vs := CascadeTokens(ts, pairs), ExactTokens(ts, pairs);
    RewriteActsOnTokens(s, pairs);
    TokensHaveDigits(s);
    forall i | 0 <= i < |ts| && ts[i].Quote? ensures Digits(vs[i].id) { ExactDigits(ts[i].id, pairs); }
    assert Similar(ts, vs);
    if Rewrite(s, pairs) == ExactRewrite(s, pairs) {
      RenderInjective(s, us, vs);
      forall id | Quoted(id, s) ensures Cascade(id, pairs) == Exact(id, pairs) {
        var i :| 0 <= i < |ts| && ts[i] == Quote(id);
        assert us[i] == vs[i];
      }
    }
    if forall id | Quoted(id, s) :: Cascade(id, pairs) == Exact(id, pairs) {
      forall i | 0 <= i < |ts| ensures us[i] == vs[i] {
        if ts[i].Quote? { assert Quoted(ts[i].id, s); }
      }
      assert us == vs;
    }
  }

  /** A mapping that grows pass by pass rewrites a comment exactly, at every stage, if and only
      if each pass is exact for each quoted id. */
  lemma RewriteExactIff(s: string, pairs: seq<Pair>)
    requires DigitPairs(pairs)
    ensures (forall k | 0 <= k <= |pairs| :: Rewrite(s, pairs[..k]) == ExactRewrite(s, pairs[..k]))
       <==> (forall id, k | Quoted(id, s) && 0 <= k < |pairs| :: PassIsExact(id, pairs, k))
  {
    forall k | 0 <= k <= |pairs|
      ensures Rewrite(s, pairs[..k]) == ExactRewrite(s, pairs[..k])
         <==> forall id | Quoted(id, s) :: Cascade(id, pairs[..k]) == Exact(id, pairs[..k])
    {
      RewriteExactIffIdsExact(s, pairs[..k]);
    }
    forall id | Quoted(id, s)
      ensures (forall k | 0 <= k <= |pairs| :: Cascade(id, pairs[..k]) == Exact(id, pairs[..k]))
          <==> (forall k | 0 <= k < |pairs| :: PassIsExact(id, pairs, k))
    {
      CascadeExactIff(id, pairs, |pairs|);
    }
  }

  /** Sufficient for a whole mapping: no old id properly begins a quoted id, and no later old id
      begins an earlier new id. */
  lemma PrefixFreeIsExact(s: string, pairs: seq<Pair>)
    requires DigitPairs(pairs)
    requires forall id, k | Quoted(id, s) && 0 <= k < |pairs| :: pairs[k].from <= id ==> pairs[k].from == id
    requires forall j, k | 0 <= j < k < |pairs| :: !(pairs[k].from <= pairs[j].to)
    ensures Rewrite(s, pairs) == ExactRewrite(s, pairs)
  {
    forall id, k | Quoted(id, s) && 0 <= k < |pairs| ensures PassIsExact(id, pairs, k) {
      if Listed(id, pairs[..k]) { ListedGetsNewId(id, pairs[..k]); }
    }
    RewriteExactIff(s, pairs);
    assert pairs[..|pairs|] == pairs;
  }

  lemma {:induction false} ListedGetsNewId(id: string, pairs: seq<Pair>)
    requires Listed(id, pairs)
    ensures exists j | 0 <= j < |pairs| :: pairs[j].from == id && Exact(id, pairs) == pairs[j].to
  {
    var front := pairs[..|pairs| - 1];
    if Listed(id, front) {
      ListedGetsNewId(id, front);
      var j :| 0 <= j < |front| && front[j].from == id && Exact(id, front) == front[j].to;
      assert pairs[j] == front[j];
    } else {
      assert forall i | 0 <= i < |front| :: front[i] == pairs[i];
      assert pairs[|pairs| - 1].from == id;
    }
  }

  /** The mapping of the script's "sequential-cascade-and-prefix" case. */
  const SAMPLE_PAIRS := [Pair("1", "2"), Pair("2", "9")]

  lemma TwoQuotes(a: string, c: char, b: string)
    requires Digits(a) && Digits(b) && !IsDigit(c) && c != '&'
    ensures Tokens(MARK + a + ([c] + (MARK + b))) == [Quote(a), Text(c), Quote(b)]
  {
    var tail := MARK + b;
    TokensOfQuote(b, []);
    assert MARK + b + [] == tail;
    assert MARK[0..][0] == '&';
    TokensOfText(c, tail);
    TokensOfQuote(a, [c] + tail);
  }

  lemma TwoQuotesRewritten(a: string, c: char, b: string, pairs: seq<Pair>)
    requires Digits(a) && Digits(b) && !IsDigit(c) && c != '&' && DigitPairs(pairs)
    ensures var s := MARK + a + ([c] + (MARK + b));
      Tokens(Rewrite(s, pairs)) == [Quote(Cascade(a, pairs)), Text(c), Quote(Cascade(b, pairs))] &&
      (Cascade(b, pairs) != Exact(b, pairs) ==> Rewrite(s, pairs) != ExactRewrite(s, pairs))
  {
    var s := MARK + a + ([c] + (MARK + b));
    TwoQuotes(a, c, b);
    RewriteActsOnTokens(s, pairs);
    assert Tokens(s)[2] == Quote(b);
    assert Quoted(b, s);
    RewriteExactIffIdsExact(s, pairs);
  }

  lemma SampleCascades(a: string, b: string, pairs: seq<Pair>)
    requires a == "1" && b == "12" && pairs == SAMPLE_PAIRS
    ensures Cascade(a, pairs) == "9" && Cascade(b, pairs) == "92" && Exact(b, pairs) == b
  {
    var first := pairs[..1];
    assert first == [Pair("1", "2")] && first[..0] == [];
    assert Cascade(a, first) == RenameId(a, first[0]) == "2";
    assert Cascade(b, first) == RenameId(b, first[0]) == "22";
    UnlistedIsKept(b, pairs);
  }

  /** The comment `>>1 >>12`, two references of that case, ends as `>>9 >>92`; the exact
      renaming is `>>2 >>12`. */
  lemma CascadeIsNotExact(s: string, a: string, b: string, pairs: seq<Pair>)
    requires a == "1" && b == "12" && s == "&gt;&gt;1 " + "&gt;&gt;12" && pairs == [Pair("1", "2"), Pair("2", "9")]
    ensures Tokens(Rewrite(s, pairs)) == [Quote("9"), Text(' '), Quote("92")]
    ensures Rewrite(s, pairs) != ExactRewrite(s, pairs)
  {
    assert s == MARK + a + ([' '] + (MARK + b));
    SampleCascades(a, b, pairs);
    TwoQuotesRewritten(a, ' ', b, pairs);
  }

  // ----- The validator -----

  /** The shortest decimal of a number from 1 to 2^63 - 1. */
  ghost predicate Numbers(s: string) { exists n: nat :: 1 <= n <= 9223372036854775807 && s == Show(n) }

  lemma IdIff(s: string)
    ensures IsId(s) <==> Numbers(s)
  {
    hide Show, Value;
    if IsId(s) {
      CanonicalIsShown(s);
      assert s == Show(Value(s));
    }
    if n: nat :| 1 <= n <= 9223372036854775807 && s == Show(n) { ShowIsCanonical(n); }
  }

  datatype Case = Case(input: string, replacements: seq<Pair>, expected: string)

  lemma IdsAreDigits()
    ensures forall s :: IsId(s) ==> Digits(s)
  {
  }

  lemma RewriteStep(s: string, pairs: seq<Pair>, pair: Pair)
    ensures Rewrite(s, pairs + [pair]) == Replace(Rewrite(s, pairs), MARK + pair.from, MARK + pair.to)
  {
    assert (pairs + [pair])[..|pairs|] == pairs;
  }

  lemma RewriteNothing(s: string)
    ensures Rewrite(s, []) == s
  {
  }

  /** A case passes exactly when its ids are in range and its expected text is the token-wise
      cascade of its input. */
  method Validate(c: Case) returns (ok: bool)
    ensures ok <==>
      && (forall i | 0 <= i < |c.replacements| :: Numbers(c.replacements[i].from) && Numbers(c.replacements[i].to))
      && c.expected == Render(CascadeTokens(Tokens(c.input), c.replacements))
  {
    hide IsId, Numbers, Replace, Rewrite, CascadeTokens, Render, Tokens;
    forall s ensures IsId(s) <==> Numbers(s) { IdIff(s); }
    IdsAreDigits();
    for i := 0 to |c.replacements|
      invariant forall j | 0 <= j < i :: IsId(c.replacements[j].from) && IsId(c.replacements[j].to)
    {
      if !IsId(c.replacements[i].from) || !IsId(c.replacements[i].to) { return false; }
    }
    var actual := c.input;
    RewriteNothing(actual);
    assert c.replacements[..0] == [];
    for i := 0 to |c.replacements|
      invariant actual == Rewrite(c.input, c.replacements[..i])
    {
      var pair := c.replacements[i];
      assert c.replacements[..i + 1] == c.replacements[..i] + [pair];
      RewriteStep(c.input, c.replacements[..i], pair);
      actual := Replace(actual, MARK + pair.from, MARK + pair.to);
    }
    assert c.replacements[..|c.replacements|] == c.replacements;
    RewriteActsOnTokens(c.input, c.replacements);
    return actual == c.expected;
  }
}
