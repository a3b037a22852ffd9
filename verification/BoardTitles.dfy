/** scripts/extract-board-reference.py: the guarded title migrations. The emitted SQL text is read
    back by a scanner and a parser of its own and executed on a table of titles. */
module BoardTitles {
  import opened Wrappers
  import PyText

  datatype Board = Board(slug: string, title: string)

  /** UPDATE content.boards SET title=... WHERE slug=... AND title=... */
  datatype Update = Update(title: string, slug: string, expected: string)

  /** Both are a ValueError. */
  datatype Error = DifferentOrder | DifferentLength

  /** content.boards, whose primary key is the slug. */
  type Table = map<string, string>

  // ----- The printer -----

  /** value.replace("'", "''") */
  function Doubled(v: string): string {
    if v == [] then [] else (if v[0] == '\'' then "''" else [v[0]]) + Doubled(v[1..])
  }

  function Quote(v: string): string { "'" + Doubled(v) + "'" }

  function Statement(u: Update): string {
    "UPDATE content.boards SET title=" + Quote(u.title) + " WHERE slug=" + Quote(u.slug) +
    " AND title=" + Quote(u.expected) + ";\n"
  }

  function Statements(updates: seq<Update>): string {
    if updates == [] then [] else Statements(updates[..|updates| - 1]) + Statement(updates[|updates| - 1])
  }

  predicate Paired(reference: seq<Board>, historical: seq<Board>) {
    |reference| == |historical| && forall i | 0 <= i < |reference| :: reference[i].slug == historical[i].slug
  }

  /** One update for each board whose two titles differ. */
  function Changes(reference: seq<Board>, historical: seq<Board>): seq<Update>
    requires Paired(reference, historical)
  {
    if reference == [] then []
    else
      var n := |reference| - 1;
      Changes(reference[..n], historical[..n]) + Change(reference[n], historical[n])
  }

  function Change(board: Board, original: Board): seq<Update> {
    if board.title == original.title then [] else [Update(board.title, board.slug, original.title)]
  }

  predicate Disagrees(reference: seq<Board>, historical: seq<Board>, i: nat) {
    i < |reference| && i < |historical| && reference[i].slug != historical[i].slug
  }

  /** board_title_updates: the first disagreeing slug is reported before a length difference. */
  method BoardTitleUpdates(reference: seq<Board>, historical: seq<Board>) returns (r: Result<string, Error>)
    ensures r.Ok? <==> Paired(reference, historical)
    ensures r.Ok? ==> r.value == Statements(Changes(reference, historical))
    ensures r == Err(DifferentOrder) <==> exists i :: Disagrees(reference, historical, i)
  {
    var rows := [];
    var i := 0;
    while i < |reference| && i < |historical|
      invariant i <= |reference| && i <= |historical|
      invariant Paired(reference[..i], historical[..i])
      invariant rows == Changes(reference[..i], historical[..i])
      invariant forall j: nat :: j < i ==> !Disagrees(reference, historical, j)
    {
      var board, original := reference[i], historical[i];
      if board.slug != original.slug {
        assert Disagrees(reference, historical, i);
        return Err(DifferentOrder);
      }
      assert reference[..i + 1][..i] == reference[..i] && historical[..i + 1][..i] == historical[..i];
      if board.title != original.title {
        rows := rows + [Update(board.title, board.slug, original.title)];
      }
      i := i + 1;
    }
    if |reference| != |historical| { return Err(DifferentLength); }
    assert reference[..i] == reference && historical[..i] == historical;
    return Ok(Statements(rows));
  }

  /** Both migrations open with two comment lines of their own. */
  predicate IsCommentLine(s: string) {
    |s| >= 3 && s[0] == s[1] == '-' && s[|s| - 1] == '\n' && forall i | 0 <= i < |s| - 1 :: s[i] != '\n'
  }

  function Migration(first: string, second: string, updates: seq<Update>): string {
    first + (second + Statements(updates))
  }

  // ----- Reading SQL -----

  datatype Token = Word(text: string) | Symbol(c: char) | Literal(value: string)

  predicate IsWordChar(c: char) { 'a' <= c <= 'z' || 'A' <= c <= 'Z' || c == '_' }

  /** A string constant after its opening quote, and what follows its closing quote. */
  function ReadLiteral(s: string): (r: Option<(string, string)>)
    ensures r.Some? ==> |r.value.1| < |s|
  {
    if s == [] then None
    else if s[0] != '\'' then
      var r := ReadLiteral(s[1..]);
      if r.None? then None else Some(([s[0]] + r.value.0, r.value.1))
    else if |s| > 1 && s[1] == '\'' then
      var r := ReadLiteral(s[2..]);
      if r.None? then None else Some(("'" + r.value.0, r.value.1))
    else Some(([], s[1..]))
  }

  function WordLength(s: string): (n: nat)
    ensures n <= |s|
  {
    if s == [] || !IsWordChar(s[0]) then 0 else 1 + WordLength(s[1..])
  }

  function LineLength(s: string): (n: nat)
    ensures n <= |s|
  {
    if s == [] then 0 else if s[0] == '\n' then 1 else 1 + LineLength(s[1..])
  }

  function Lex(s: string): Option<seq<Token>>
    decreases |s|
  {
    if s == [] then Some([])
    else if s[0] == ' ' || s[0] == '\n' then Lex(s[1..])
    else if s[0] == '-' && |s| > 1 && s[1] == '-' then
      var n := LineLength(s);
      if n == 0 then None else Lex(s[n..])
    else if s[0] == '\'' then
      var r := ReadLiteral(s[1..]);
      if r.None? then None else Before([Literal(r.value.0)], Lex(r.value.1))
    else if IsWordChar(s[0]) then
      var n := WordLength(s);
      if n == 0 then None else Before([Word(s[..n])], Lex(s[n..]))
    else Before([Symbol(s[0])], Lex(s[1..]))
  }

  function Before(tokens: seq<Token>, rest: Option<seq<Token>>): Option<seq<Token>> {
    if rest.None? then None else Some(tokens + rest.value)
  }

  /** The tokens of one guarded update. */
  function Tokens(u: Update): seq<Token> {
    [Word("UPDATE"), Word("content"), Symbol('.'), Word("boards"), Word("SET"), Word("title"), Symbol('='),
     Literal(u.title)] +
    ([Word("WHERE"), Word("slug"), Symbol('='), Literal(u.slug)] +
     [Word("AND"), Word("title"), Symbol('='), Literal(u.expected), Symbol(';')])
  }

  const Size := 17

  /** A script of guarded updates; anything else is None. */
  function ParseTokens(tokens: seq<Token>): Option<seq<Update>> {
    if tokens == [] then Some([])
    else if |tokens| < Size || !tokens[7].Literal? || !tokens[11].Literal? || !tokens[15].Literal? then None
    else
      var u := Update(tokens[7].value, tokens[11].value, tokens[15].value);
      var rest := ParseTokens(tokens[Size..]);
      if tokens[..Size] != Tokens(u) || rest.None? then None else Some([u] + rest.value)
  }

  function Parse(script: string): Option<seq<Update>> {
    var tokens := Lex(script);
    if tokens.None? then None else ParseTokens(tokens.value)
  }

  // ----- The text means the updates -----

  lemma LiteralStep(c: char, tail: string)
    requires ReadLiteral(tail).Some?
    ensures ReadLiteral((if c == '\'' then "''" else [c]) + tail) ==
            Some(([c] + ReadLiteral(tail).value.0, ReadLiteral(tail).value.1))
  {
    var s := (if c == '\'' then "''" else [c]) + tail;
    if c == '\'' { assert s[2..] == tail; } else { assert s[1..] == tail; }
  }

  lemma LiteralEnds(rest: string)
    requires rest != [] && rest[0] != '\''
    ensures ReadLiteral("'" + rest) == Some(([], rest))
  {
    assert ("'" + rest)[1..] == rest;
  }

  lemma {:induction false} LiteralReads(v: string, rest: string)
    requires rest != [] && rest[0] != '\''
    ensures ReadLiteral(Doubled(v) + ("'" + rest)) == Some((v, rest))
  {
    hide ReadLiteral;
    var s := Doubled(v) + ("'" + rest);
    if v == [] {
      assert s == "'" + rest;
      LiteralEnds(rest);
    } else {
      var c, more := v[0], v[1..];
      assert v == [c] + more;
      assert s == (if c == '\'' then "''" else [c]) + (Doubled(more) + ("'" + rest));
      LiteralReads(more, rest);
      LiteralStep(c, Doubled(more) + ("'" + rest));
    }
  }

  lemma LexLiteral(v: string, rest: string)
    requires rest != [] && rest[0] != '\''
    ensures Lex(Quote(v) + rest) == Before([Literal(v)], Lex(rest))
  {
    hide ReadLiteral, Doubled, WordLength, LineLength;
    LiteralReads(v, rest);
    var body := Doubled(v) + ("'" + rest);
    var s := Quote(v) + rest;
    assert s == "'" + body;
    assert s[0] == '\'' && s[1..] == body;
  }

  lemma {:induction false} WordLengthOf(w: string, rest: string)
    requires forall i | 0 <= i < |w| :: IsWordChar(w[i])
    requires rest == [] || !IsWordChar(rest[0])
    ensures WordLength(w + rest) == |w|
  {
    if w == [] {
      assert w + rest == rest;
    } else {
      assert (w + rest)[1..] == w[1..] + rest;
      WordLengthOf(w[1..], rest);
    }
  }

  lemma LexWord(w: string, rest: string)
    requires w != [] && forall i | 0 <= i < |w| :: IsWordChar(w[i])
    requires rest == [] || !IsWordChar(rest[0])
    ensures Lex(w + rest) == Before([Word(w)], Lex(rest))
  {
    WordLengthOf(w, rest);
    assert (w + rest)[..|w|] == w && (w + rest)[|w|..] == rest;
    assert (w + rest)[0] == w[0];
  }

  lemma LexOne(c: char, rest: string)
    ensures c == ' ' || c == '\n' ==> Lex([c] + rest) == Lex(rest)
    ensures c in {'=', '.', ';'} ==> Lex([c] + rest) == Before([Symbol(c)], Lex(rest))
  {
    assert ([c] + rest)[1..] == rest;
  }

  lemma BeforeBefore(a: seq<Token>, b: seq<Token>, rest: Option<seq<Token>>)
    ensures Before(a, Before(b, rest)) == Before(a + b, rest)
  {
    if rest.Some? { assert a + (b + rest.value) == a + b + rest.value; }
  }

  lemma LexHead(rest: string)
    ensures Lex("UPDATE content.boards SET title=" + rest) == Before(
      [Word("UPDATE"), Word("content"), Symbol('.'), Word("boards"), Word("SET"), Word("title"), Symbol('=')], Lex(rest))
  {
    hide Lex, WordLength, LineLength;
    var s8 := "=" + rest;
    var s7 := "title" + s8;
    var s6 := " " + s7;
    var s5 := "SET" + s6;
    var s4 := " " + s5;
    var s3 := "boards" + s4;
    var s2 := "." + s3;
    var s1 := "content" + s2;
    var s0 := " " + s1;
    assert "UPDATE content.boards SET title=" + rest == "UPDATE" + s0;
    LexWord("UPDATE", s0);
    LexOne(' ', s1);
    LexWord("content", s2);
    LexOne('.', s3);
    LexWord("boards", s4);
    LexOne(' ', s5);
    LexWord("SET", s6);
    LexOne(' ', s7);
    LexWord("title", s8);
    LexOne('=', rest);
    if Lex(rest).Some? {
      var t := Lex(rest).value;
      assert [Word("UPDATE")] + ([Word("content")] + ([Symbol('.')] + ([Word("boards")] + ([Word("SET")] +
             ([Word("title")] + ([Symbol('=')] + t)))))) ==
        [Word("UPDATE"), Word("content"), Symbol('.'), Word("boards"), Word("SET"), Word("title"), Symbol('=')] + t;
    }
  }

  lemma LexGuard(keyword: string, name: string, rest: string)
    requires (keyword == "WHERE" && name == "slug") || (keyword == "AND" && name == "title")
    ensures Lex(" " + keyword + " " + name + "=" + rest) ==
            Before([Word(keyword), Word(name), Symbol('=')], Lex(rest))
  {
    hide Lex, WordLength, LineLength;
    var s3 := "=" + rest;
    var s2 := name + s3;
    var s1 := " " + s2;
    var s0 := keyword + s1;
    assert " " + keyword + " " + name + "=" + rest == " " + s0;
    LexOne(' ', s0);
    LexWord(keyword, s1);
    LexOne(' ', s2);
    LexWord(name, s3);
    LexOne('=', rest);
    if Lex(rest).Some? {
      var t := Lex(rest).value;
      assert [Word(keyword)] + ([Word(name)] + ([Symbol('=')] + t)) == [Word(keyword), Word(name), Symbol('=')] + t;
    }
  }

  lemma StatementLexes(u: Update, rest: string)
    ensures Lex(Statement(u) + rest) == Before(Tokens(u), Lex(rest))
  {
    hide Lex, Quote, LineLength, WordLength;
    var s5 := [';'] + (['\n'] + rest);
    var s4 := Quote(u.expected) + s5;
    var s3 := " AND title=" + s4;
    var s2 := Quote(u.slug) + s3;
    var s1 := " WHERE slug=" + s2;
    var s0 := Quote(u.title) + s1;
    assert Statement(u) + rest == "UPDATE content.boards SET title=" + s0;
    LexHead(s0);
    LexLiteral(u.title, s1);
    assert s1 == " " + "WHERE" + " " + "slug" + "=" + s2;
    LexGuard("WHERE", "slug", s2);
    LexLiteral(u.slug, s3);
    assert s3 == " " + "AND" + " " + "title" + "=" + s4;
    LexGuard("AND", "title", s4);
    LexLiteral(u.expected, s5);
    LexOne(';', ['\n'] + rest);
    LexOne('\n', rest);
    TokensNest(u, Lex(rest));
  }

  lemma TokensNest(u: Update, rest: Option<seq<Token>>)
    ensures Before([Word("UPDATE"), Word("content"), Symbol('.'), Word("boards"), Word("SET"), Word("title"), Symbol('=')],
      Before([Literal(u.title)], Before([Word("WHERE"), Word("slug"), Symbol('=')],
        Before([Literal(u.slug)], Before([Word("AND"), Word("title"), Symbol('=')],
          Before([Literal(u.expected)], Before([Symbol(';')], rest))))))) == Before(Tokens(u), rest)
  {
    if rest.Some? {
      var t := rest.value;
      assert [Word("UPDATE"), Word("content"), Symbol('.'), Word("boards"), Word("SET"), Word("title"), Symbol('=')] +
        ([Literal(u.title)] + ([Word("WHERE"), Word("slug"), Symbol('=')] + ([Literal(u.slug)] +
         ([Word("AND"), Word("title"), Symbol('=')] + ([Literal(u.expected)] + ([Symbol(';')] + t)))))) == Tokens(u) + t;
    }
  }

  function AllTokens(updates: seq<Update>): seq<Token> {
    if updates == [] then [] else AllTokens(updates[..|updates| - 1]) + Tokens(updates[|updates| - 1])
  }

  lemma {:induction false} StatementsLex(updates: seq<Update>, rest: string)
    ensures Lex(Statements(updates) + rest) == Before(AllTokens(updates), Lex(rest))
  {
    hide Lex, Statement, Tokens;
    if updates == [] {
      assert Statements(updates) + rest == rest;
      BeforeNone(Lex(rest));
    } else {
      var front, last := updates[..|updates| - 1], updates[|updates| - 1];
      assert Statements(updates) + rest == Statements(front) + (Statement(last) + rest);
      StatementsLex(front, Statement(last) + rest);
      StatementLexes(last, rest);
      BeforeBefore(AllTokens(front), Tokens(last), Lex(rest));
    }
  }

  lemma BeforeNone(rest: Option<seq<Token>>)
    ensures Before([], rest) == rest
  {
    if rest.Some? { assert [] + rest.value == rest.value; }
  }

  lemma ParseOne(u: Update, rest: seq<Token>)
    requires ParseTokens(rest).Some?
    ensures ParseTokens(Tokens(u) + rest) == Some([u] + ParseTokens(rest).value)
  {
    var tokens := Tokens(u) + rest;
    assert |Tokens(u)| == Size && tokens[..Size] == Tokens(u) && tokens[Size..] == rest;
    assert tokens[7] == Tokens(u)[7] && tokens[11] == Tokens(u)[11] && tokens[15] == Tokens(u)[15];
  }

  lemma {:induction false} ParseAll(updates: seq<Update>, rest: seq<Token>)
    requires ParseTokens(rest).Some?
    ensures ParseTokens(AllTokens(updates) + rest) == Some(updates + ParseTokens(rest).value)
  {
    hide ParseTokens, Tokens;
    if updates == [] {
      assert AllTokens(updates) + rest == rest;
      assert updates + ParseTokens(rest).value == ParseTokens(rest).value;
    } else {
      var front, last := updates[..|updates| - 1], updates[|updates| - 1];
      assert AllTokens(updates) + rest == AllTokens(front) + (Tokens(last) + rest);
      ParseOne(last, rest);
      ParseAll(front, Tokens(last) + rest);
      assert front + ([last] + ParseTokens(rest).value) == updates + ParseTokens(rest).value;
    }
  }

  lemma {:induction false} LineLengthOf(comment: string, rest: string)
    requires comment != [] && comment[|comment| - 1] == '\n'
    requires forall i | 0 <= i < |comment| - 1 :: comment[i] != '\n'
    ensures LineLength(comment + rest) == |comment|
  {
    if |comment| > 1 {
      assert (comment + rest)[1..] == comment[1..] + rest;
      LineLengthOf(comment[1..], rest);
    }
  }

  lemma LexComment(comment: string, rest: string)
    requires IsCommentLine(comment)
    ensures Lex(comment + rest) == Lex(rest)
  {
    LineLengthOf(comment, rest);
    assert (comment + rest)[|comment|..] == rest;
  }

  /** Whatever the titles hold (quotes, line ends, "--", whole statements), the emitted text reads
      as exactly the intended updates. */
  lemma MigrationReads(first: string, second: string, updates: seq<Update>)
    requires IsCommentLine(first) && IsCommentLine(second)
    ensures Parse(Migration(first, second, updates)) == Some(updates)
  {
    var text := Statements(updates);
    LexComment(first, second + text);
    LexComment(second, text);
    StatementsLex(updates, []);
    assert text + [] == text;
    assert Lex([]) == Some([]);
    ParseAll(updates, []);
    assert updates + [] == updates;
  }

  // ----- Executing it -----

  function Apply(t: Table, u: Update): Table {
    if u.slug in t && t[u.slug] == u.expected then t[u.slug := u.title] else t
  }

  function Run(updates: seq<Update>, t: Table): Table {
    if updates == [] then t else Apply(Run(updates[..|updates| - 1], t), updates[|updates| - 1])
  }

  /** None for a script that is not a list of guarded updates. */
  function Execute(script: string, t: Table): Option<Table> {
    var updates := Parse(script);
    if updates.None? then None else Some(Run(updates.value, t))
  }

  predicate Distinct(boards: seq<Board>) {
    forall i, j | 0 <= i < j < |boards| :: boards[i].slug != boards[j].slug
  }

  predicate Lists(boards: seq<Board>, slug: string) {
    exists i | 0 <= i < |boards| :: boards[i].slug == slug
  }

  /** `after` is `before` with each board's `historical` title, where still in place, replaced by
      its `reference` title, and every other title and board as it was. */
  ghost predicate Retitles(reference: seq<Board>, historical: seq<Board>, before: Table, after: Table)
    requires Paired(reference, historical)
  {
    && after.Keys == before.Keys
    && (forall i | 0 <= i < |reference| && reference[i].slug in before ::
          after[reference[i].slug] == if before[reference[i].slug] == historical[i].title then reference[i].title
                                      else before[reference[i].slug])
    && (forall slug | slug in before && !Lists(reference, slug) :: after[slug] == before[slug])
  }

  lemma RunChange(updates: seq<Update>, board: Board, original: Board, t: Table)
    requires board.slug == original.slug
    ensures Run(updates + Change(board, original), t).Keys == Run(updates, t).Keys
    ensures forall slug | slug in Run(updates, t) :: Run(updates + Change(board, original), t)[slug] ==
              if slug == board.slug && Run(updates, t)[slug] == original.title then board.title else Run(updates, t)[slug]
  {
    var u := Update(board.title, board.slug, original.title);
    assert (updates + [u])[..|updates|] == updates;
    assert updates + [] == updates;
  }

  lemma RunNothing(t: Table)
    ensures Run([], t) == t
  {
  }

  lemma {:induction false} ChangesRetitle(reference: seq<Board>, historical: seq<Board>, t: Table)
    requires Paired(reference, historical) && Distinct(reference)
    ensures Retitles(reference, historical, t, Run(Changes(reference, historical), t))
  {
    hide Run, Change, Retitles;
    RunNothing(t);
    if reference == [] {
      RetitlesNothing(reference, historical, t);
    } else {
      var n := |reference| - 1;
      ChangesRetitle(reference[..n], historical[..n], t);
      RunChange(Changes(reference[..n], historical[..n]), reference[n], historical[n], t);
      RetitlesOneMore(reference, historical, t, Run(Changes(reference[..n], historical[..n]), t),
                      Run(Changes(reference, historical), t));
    }
  }

  lemma RetitlesNothing(reference: seq<Board>, historical: seq<Board>, t: Table)
    requires Paired(reference, historical) && reference == []
    ensures Retitles(reference, historical, t, t)
  {
  }

  lemma RetitlesOneMore(reference: seq<Board>, historical: seq<Board>, before: Table, middle: Table, after: Table)
    requires Paired(reference, historical) && Distinct(reference) && reference != []
    requires var n := |reference| - 1;
      && Retitles(reference[..n], historical[..n], before, middle)
      && after.Keys == middle.Keys
      && forall slug | slug in middle :: after[slug] ==
           if slug == reference[n].slug && middle[slug] == historical[n].title then reference[n].title else middle[slug]
    ensures Retitles(reference, historical, before, after)
  {
    var n := |reference| - 1;
    var front := reference[..n];
    assert !Lists(front, reference[n].slug);
    forall slug | slug in before && !Lists(reference, slug) ensures after[slug] == before[slug] {
      assert slug != reference[n].slug;
      forall i | 0 <= i < n ensures front[i].slug != slug { assert reference[i].slug != slug; }
    }
    forall i | 0 <= i < |reference| && reference[i].slug in before
      ensures after[reference[i].slug] ==
        if before[reference[i].slug] == historical[i].title then reference[i].title else before[reference[i].slug]
    {
      if i < n { assert front[i] == reference[i] && historical[..n][i] == historical[i]; }
    }
  }

  /** The migration text, executed on any table of titles. */
  lemma MigrationRetitles(first: string, second: string, reference: seq<Board>, historical: seq<Board>, t: Table)
    requires IsCommentLine(first) && IsCommentLine(second)
    requires Paired(reference, historical) && Distinct(reference)
    ensures Execute(Migration(first, second, Changes(reference, historical)), t).Some?
    ensures Retitles(reference, historical, t,
                     Execute(Migration(first, second, Changes(reference, historical)), t).value)
  {
    MigrationReads(first, second, Changes(reference, historical));
    ChangesRetitle(reference, historical, t);
    hide Retitles, Parse, Run, Changes;
  }

  // ----- Both migrations, in order -----

  /** Encoding first (`historical` to `utf8`), titles second (`utf8` to `reference`). */
  function Upgrade(reference: seq<Board>, utf8: seq<Board>, historical: seq<Board>, t: Table): Table
    requires Paired(utf8, historical) && Paired(reference, utf8)
  {
    Run(Changes(reference, utf8), Run(Changes(utf8, historical), t))
  }

  /** The other order. */
  function Swapped(reference: seq<Board>, utf8: seq<Board>, historical: seq<Board>, t: Table): Table
    requires Paired(utf8, historical) && Paired(reference, utf8)
  {
    Run(Changes(utf8, historical), Run(Changes(reference, utf8), t))
  }

  lemma DistinctAlike(a: seq<Board>, b: seq<Board>)
    requires Paired(a, b) && Distinct(a)
    ensures Distinct(b)
    ensures forall slug :: Lists(a, slug) <==> Lists(b, slug)
  {
    forall i, j | 0 <= i < j < |b| ensures b[i].slug != b[j].slug {
      assert a[i].slug == b[i].slug && a[j].slug == b[j].slug;
    }
  }

  /** After both, a board has its reference title exactly when it held either source title (or the
      reference title already); any other title is as the operator left it. An edited title is
      lost only if it is the corrected spelling that the second migration replaces. */
  lemma UpgradeMeans(reference: seq<Board>, utf8: seq<Board>, historical: seq<Board>, t: Table, i: nat)
    requires Paired(utf8, historical) && Paired(reference, utf8) && Distinct(reference)
    requires i < |reference| && reference[i].slug in t
    ensures Upgrade(reference, utf8, historical, t).Keys == t.Keys
    ensures var slug := reference[i].slug;
      && Upgrade(reference, utf8, historical, t)[slug] ==
           (if t[slug] in {historical[i].title, utf8[i].title} then reference[i].title else t[slug])
      && (t[slug] != historical[i].title ==>
           (Upgrade(reference, utf8, historical, t)[slug] == t[slug] <==>
            t[slug] != utf8[i].title || utf8[i].title == reference[i].title))
  {
    DistinctAlike(reference, utf8);
    var middle := Run(Changes(utf8, historical), t);
    ChangesRetitle(utf8, historical, t);
    ChangesRetitle(reference, utf8, middle);
    hide Run, Changes;
    assert utf8[i].slug == reference[i].slug;
  }

  lemma UpgradeKeepsOthers(reference: seq<Board>, utf8: seq<Board>, historical: seq<Board>, t: Table, slug: string)
    requires Paired(utf8, historical) && Paired(reference, utf8) && Distinct(reference)
    requires slug in t && !Lists(reference, slug)
    ensures slug in Upgrade(reference, utf8, historical, t) && Upgrade(reference, utf8, historical, t)[slug] == t[slug]
  {
    DistinctAlike(reference, utf8);
    ChangesRetitle(utf8, historical, t);
    ChangesRetitle(reference, utf8, Run(Changes(utf8, historical), t));
    hide Run, Changes, Lists;
  }

  /** Repeating the upgrade changes nothing. */
  lemma UpgradeTwice(reference: seq<Board>, utf8: seq<Board>, historical: seq<Board>, t: Table)
    requires Paired(utf8, historical) && Paired(reference, utf8) && Distinct(reference)
    ensures var once := Upgrade(reference, utf8, historical, t);
      Upgrade(reference, utf8, historical, once) == once
  {
    var once := Upgrade(reference, utf8, historical, t);
    var twice := Upgrade(reference, utf8, historical, once);
    ChangesRetitleKeys(reference, utf8, historical, t);
    ChangesRetitleKeys(reference, utf8, historical, once);
    forall slug | slug in t ensures twice[slug] == once[slug] {
      if i: nat :| i < |reference| && reference[i].slug == slug {
        UpgradeMeans(reference, utf8, historical, t, i);
        UpgradeMeans(reference, utf8, historical, once, i);
      } else {
        UpgradeKeepsOthers(reference, utf8, historical, once, slug);
      }
    }
  }

  lemma ChangesRetitleKeys(reference: seq<Board>, utf8: seq<Board>, historical: seq<Board>, t: Table)
    requires Paired(utf8, historical) && Paired(reference, utf8) && Distinct(reference)
    ensures Upgrade(reference, utf8, historical, t).Keys == t.Keys == Swapped(reference, utf8, historical, t).Keys
  {
    DistinctAlike(reference, utf8);
    ChangesRetitle(utf8, historical, t);
    ChangesRetitle(reference, utf8, Run(Changes(utf8, historical), t));
    ChangesRetitle(reference, utf8, t);
    ChangesRetitle(utf8, historical, Run(Changes(reference, utf8), t));
  }

  lemma SwappedMeans(reference: seq<Board>, utf8: seq<Board>, historical: seq<Board>, t: Table, i: nat)
    requires Paired(utf8, historical) && Paired(reference, utf8) && Distinct(reference)
    requires i < |reference| && reference[i].slug in t
    ensures Swapped(reference, utf8, historical, t).Keys == t.Keys
    ensures var slug := reference[i].slug;
      var middle := if t[slug] == utf8[i].title then reference[i].title else t[slug];
      Swapped(reference, utf8, historical, t)[slug] ==
        if middle == historical[i].title then utf8[i].title else middle
  {
    DistinctAlike(reference, utf8);
    ChangesRetitle(reference, utf8, t);
    ChangesRetitle(utf8, historical, Run(Changes(reference, utf8), t));
    hide Run, Changes;
    assert utf8[i].slug == reference[i].slug;
  }

  lemma SwappedKeepsOthers(reference: seq<Board>, utf8: seq<Board>, historical: seq<Board>, t: Table, slug: string)
    requires Paired(utf8, historical) && Paired(reference, utf8) && Distinct(reference)
    requires slug in t && !Lists(reference, slug)
    ensures slug in Swapped(reference, utf8, historical, t) && Swapped(reference, utf8, historical, t)[slug] == t[slug]
  {
    DistinctAlike(reference, utf8);
    ChangesRetitle(reference, utf8, t);
    ChangesRetitle(utf8, historical, Run(Changes(reference, utf8), t));
    hide Run, Changes, Lists;
  }

  /** The order of the two migrations is immaterial on every table if and only if no board's title
      is changed by both. */
  lemma OrderIff(reference: seq<Board>, utf8: seq<Board>, historical: seq<Board>)
    requires Paired(utf8, historical) && Paired(reference, utf8) && Distinct(reference)
    ensures (forall t: Table :: Upgrade(reference, utf8, historical, t) == Swapped(reference, utf8, historical, t))
       <==> forall i | 0 <= i < |reference| :: historical[i].title == utf8[i].title || utf8[i].title == reference[i].title
  {
    if i :| 0 <= i < |reference| && historical[i].title != utf8[i].title && utf8[i].title != reference[i].title {
      var t: Table := map[reference[i].slug := historical[i].title];
      UpgradeMeans(reference, utf8, historical, t, i);
      SwappedMeans(reference, utf8, historical, t, i);
      assert Upgrade(reference, utf8, historical, t) != Swapped(reference, utf8, historical, t);
    } else {
      forall t: Table ensures Upgrade(reference, utf8, historical, t) == Swapped(reference, utf8, historical, t) {
        OrderImmaterial(reference, utf8, historical, t);
      }
    }
  }

  lemma OrderImmaterial(reference: seq<Board>, utf8: seq<Board>, historical: seq<Board>, t: Table)
    requires Paired(utf8, historical) && Paired(reference, utf8) && Distinct(reference)
    requires forall i | 0 <= i < |reference| :: historical[i].title == utf8[i].title || utf8[i].title == reference[i].title
    ensures Upgrade(reference, utf8, historical, t) == Swapped(reference, utf8, historical, t)
  {
    ChangesRetitleKeys(reference, utf8, historical, t);
    var a, b := Upgrade(reference, utf8, historical, t), Swapped(reference, utf8, historical, t);
    hide Upgrade, Swapped;
    forall slug | slug in t ensures a[slug] == b[slug] {
      if i: nat :| i < |reference| && reference[i].slug == slug {
        UpgradeMeans(reference, utf8, historical, t, i);
        SwappedMeans(reference, utf8, historical, t, i);
      } else {
        UpgradeKeepsOthers(reference, utf8, historical, t, slug);
        SwappedKeepsOthers(reference, utf8, historical, t, slug);
      }
    }
  }

  // ----- Where the titles come from -----

  /** The leading \s*. */
  function Spaces(s: string): (n: nat)
    ensures n <= |s| && (forall i | 0 <= i < n :: PyText.IsSpace(s[i])) && (n < |s| ==> !PyText.IsSpace(s[n]))
  {
    if s == [] || !PyText.IsSpace(s[0]) then 0 else 1 + Spaces(s[1..])
  }

  /** What follows `prefix`, \s*, a dash and \s*. */
  function AfterPrefix(prefix: string, title: string): Option<string> {
    if !(prefix <= title) then None
    else
      var rest := title[|prefix|..];
      var dash := rest[Spaces(rest)..];
      if dash == [] || dash[0] != '-' then None else Some(dash[1 + Spaces(dash[1..])..])
  }

  /** short_title */
  function ShortTitle(slug: string, title: string, historicalTitles: bool): string {
    var plain := AfterPrefix("/" + slug + "/", title);
    var found := if plain.None? && slug == "s4s" && !historicalTitles then AfterPrefix("[s4s]", title) else plain;
    if found.None? then title else found.value
  }

  predicate AllSpaces(s: string) { forall i | 0 <= i < |s| :: PyText.IsSpace(s[i]) }

  lemma {:induction false} SpacesOf(a: string, rest: string)
    requires AllSpaces(a) && (rest == [] || !PyText.IsSpace(rest[0]))
    ensures Spaces(a + rest) == |a|
  {
    hide PyText.IsSpace;
    if a == [] {
      assert a + rest == rest;
    } else {
      assert (a + rest)[1..] == a[1..] + rest;
      SpacesOf(a[1..], rest);
    }
  }

  /** `title` is `prefix`, white space, a dash, white space and then `r`, which starts with none. */
  ghost predicate Decomposes(prefix: string, title: string, r: string) {
    (r == [] || !PyText.IsSpace(r[0])) &&
    exists a, b :: AllSpaces(a) && AllSpaces(b) && title == prefix + (a + ("-" + (b + r)))
  }

  lemma SpacesSplit(s: string) returns (gap: string, rest: string)
    ensures s == gap + rest && |gap| == Spaces(s) && rest == s[Spaces(s)..] && AllSpaces(gap)
    ensures rest == [] || !PyText.IsSpace(rest[0])
  {
    gap, rest := s[..Spaces(s)], s[Spaces(s)..];
  }

  lemma AfterPrefixDecomposes(prefix: string, title: string)
    requires AfterPrefix(prefix, title).Some?
    ensures Decomposes(prefix, title, AfterPrefix(prefix, title).value)
  {
    hide PyText.IsSpace, Spaces, AllSpaces;
    var rest := title[|prefix|..];
    var a, dash := SpacesSplit(rest);
    var b, r := SpacesSplit(dash[1..]);
    AfterPrefixValue(prefix, title, dash, |b|);
    hide AfterPrefix;
    DashThen(dash, b, r);
    assert title == prefix + rest;
  }

  lemma DashThen(dash: string, b: string, r: string)
    requires dash != [] && dash[0] == '-' && dash[1..] == b + r
    ensures dash == "-" + (b + r) && dash[1 + |b|..] == r
  {
    assert (b + r)[|b|..] == r;
    assert dash[1 + |b|..] == dash[1..][|b|..];
  }

  lemma AfterPrefixValue(prefix: string, title: string, dash: string, n: nat)
    requires AfterPrefix(prefix, title).Some?
    requires dash == title[|prefix|..][Spaces(title[|prefix|..])..]
    requires n <= |dash[1..]| && (dash != [] ==> n == Spaces(dash[1..]))
    ensures dash != [] && dash[0] == '-' && AfterPrefix(prefix, title).value == dash[1 + n..]
  {
    hide Spaces;
  }

  lemma AfterPrefixFinds(prefix: string, a: string, b: string, r: string)
    requires AllSpaces(a) && AllSpaces(b) && (r == [] || !PyText.IsSpace(r[0]))
    ensures AfterPrefix(prefix, prefix + (a + ("-" + (b + r)))) == Some(r)
  {
    DashIsNoSpace();
    hide PyText.IsSpace, AllSpaces;
    var dash := "-" + (b + r);
    var title := prefix + (a + dash);
    assert title[|prefix|..] == a + dash;
    SpacesOf(a, dash);
    assert (a + dash)[|a|..] == dash;
    assert dash[1..] == b + r;
    SpacesOf(b, r);
    assert dash[1 + |b|..] == r;
    hide Spaces;
  }

  /** The match is the pattern's, and all of the white space around the dash goes with it. */
  lemma AfterPrefixIff(prefix: string, title: string, r: string)
    ensures AfterPrefix(prefix, title) == Some(r) <==> Decomposes(prefix, title, r)
  {
    hide PyText.IsSpace, AfterPrefix;
    if AfterPrefix(prefix, title).Some? { AfterPrefixDecomposes(prefix, title); }
    if Decomposes(prefix, title, r) {
      var a, b :| AllSpaces(a) && AllSpaces(b) && title == prefix + (a + ("-" + (b + r)));
      AfterPrefixFinds(prefix, a, b, r);
    }
  }

  lemma DashIsNoSpace()
    ensures !PyText.IsSpace('-')
  {
  }

  /** The short title: what follows `/slug/` (or, of s4s in the current mode, `[s4s]`) and a dash
      with the white space around it, and otherwise the whole title. */
  lemma ShortTitleIs(slug: string, title: string, historicalTitles: bool)
    ensures forall r :: Decomposes("/" + slug + "/", title, r) ==> ShortTitle(slug, title, historicalTitles) == r
    ensures forall r :: slug == "s4s" && !historicalTitles && Decomposes("[s4s]", title, r) ==>
              ShortTitle(slug, title, historicalTitles) == r
    ensures (forall r :: !Decomposes("/" + slug + "/", title, r)) &&
            (slug == "s4s" && !historicalTitles ==> forall r :: !Decomposes("[s4s]", title, r)) ==>
              ShortTitle(slug, title, historicalTitles) == title
  {
    forall r ensures AfterPrefix("/" + slug + "/", title) == Some(r) <==> Decomposes("/" + slug + "/", title, r) {
      AfterPrefixIff("/" + slug + "/", title, r);
    }
    forall r ensures AfterPrefix("[s4s]", title) == Some(r) <==> Decomposes("[s4s]", title, r) {
      AfterPrefixIff("[s4s]", title, r);
    }
    PrefixesExclude(slug, title);
    hide AfterPrefix, Decomposes;
    var plain, bracket := AfterPrefix("/" + slug + "/", title), AfterPrefix("[s4s]", title);
    if plain.Some? { assert Decomposes("/" + slug + "/", title, plain.value); }
    if bracket.Some? { assert Decomposes("[s4s]", title, bracket.value); }
  }

  lemma PrefixesExclude(slug: string, title: string)
    ensures AfterPrefix("/" + slug + "/", title).None? || AfterPrefix("[s4s]", title).None?
  {
    var slash, bracket := "/" + slug + "/", "[s4s]";
    assert slash[0] == '/' && bracket[0] == '[';
  }

  /** The two extraction modes differ on exactly the titles that carry the bracketed prefix. */
  lemma ModesDifferIff(slug: string, title: string)
    ensures ShortTitle(slug, title, true) != ShortTitle(slug, title, false) <==>
            slug == "s4s" && AfterPrefix("[s4s]", title).Some?
  {
    var bracket := "[s4s]";
    if slug == "s4s" && AfterPrefix(bracket, title).Some? {
      assert title[0] == bracket[0] == '[';
      var slash := "/" + slug + "/";
      assert slash[0] == '/';
      assert AfterPrefix(slash, title).None?;
      assert |AfterPrefix(bracket, title).value| < |title|;
    }
  }

  /** What one board's title is read from: its directory name under either decoding, and the TITLE
      override of its own file, always read as UTF-8. */
  datatype Source = Source(slug: string, utf8: string, cp1252: string, override: Option<string>)

  function Title(s: Source, cp1252: bool, historicalTitles: bool, unescape: string -> string): string {
    unescape(match s.override
             case Some(title) => ShortTitle(s.slug, title, historicalTitles)
             case None => if cp1252 then s.cp1252 else s.utf8)
  }

  function Extract(sources: seq<Source>, cp1252: bool, historicalTitles: bool, unescape: string -> string): (r: seq<Board>)
    ensures |r| == |sources|
    ensures forall i | 0 <= i < |r| ::
              r[i].slug == sources[i].slug && r[i].title == Title(sources[i], cp1252, historicalTitles, unescape)
  {
    seq(|sources|, i requires 0 <= i < |sources| =>
      Board(sources[i].slug, Title(sources[i], cp1252, historicalTitles, unescape)))
  }

  lemma {:induction false} ChangesHold(reference: seq<Board>, historical: seq<Board>, u: Update)
    requires Paired(reference, historical)
    ensures u in Changes(reference, historical) <==> exists i | 0 <= i < |reference| ::
              reference[i].title != historical[i].title && u == Update(reference[i].title, reference[i].slug, historical[i].title)
  {
    if reference != [] {
      var n := |reference| - 1;
      ChangesHold(reference[..n], historical[..n], u);
      if u in Changes(reference[..n], historical[..n]) {
        var i :| 0 <= i < n && reference[..n][i].title != historical[..n][i].title &&
                 u == Update(reference[..n][i].title, reference[..n][i].slug, historical[..n][i].title);
        assert reference[i].title != historical[i].title && u == Update(reference[i].title, reference[i].slug, historical[i].title);
      }
      if i :| 0 <= i < n && reference[i].title != historical[i].title &&
              u == Update(reference[i].title, reference[i].slug, historical[i].title) {
        assert reference[..n][i] == reference[i] && historical[..n][i] == historical[i];
      }
    }
  }

  /** The title migration touches the one board whose override carries the bracketed prefix, and
      the encoding migration only boards without an override. */
  lemma EachMigrationItsOwn(sources: seq<Source>, unescape: string -> string)
    ensures var historical, utf8, reference := Extract(sources, true, true, unescape), Extract(sources, false, true, unescape), Extract(sources, false, false, unescape);
      && Paired(utf8, historical) && Paired(reference, utf8)
      && (forall u | u in Changes(reference, utf8) :: u.slug == "s4s")
      && (forall u | u in Changes(utf8, historical) :: exists i | 0 <= i < |sources| ::
            sources[i].slug == u.slug && sources[i].override.None? && u.title == unescape(sources[i].utf8) && u.expected == unescape(sources[i].cp1252))
  {
    var historical, utf8, reference := Extract(sources, true, true, unescape), Extract(sources, false, true, unescape), Extract(sources, false, false, unescape);
    hide ShortTitle;
    forall u | u in Changes(reference, utf8) ensures u.slug == "s4s" {
      ChangesHold(reference, utf8, u);
      var i :| 0 <= i < |reference| && reference[i].title != utf8[i].title && u == Update(reference[i].title, reference[i].slug, utf8[i].title);
      if sources[i].override.Some? { ModesDifferIff(sources[i].slug, sources[i].override.value); }
    }
    forall u | u in Changes(utf8, historical)
      ensures exists i | 0 <= i < |sources| :: sources[i].slug == u.slug && sources[i].override.None? &&
                u.title == unescape(sources[i].utf8) && u.expected == unescape(sources[i].cp1252)
    {
      ChangesHold(utf8, historical, u);
      var i :| 0 <= i < |utf8| && utf8[i].title != historical[i].title && u == Update(utf8[i].title, utf8[i].slug, historical[i].title);
      assert sources[i].slug == u.slug;
    }
  }

  /** So the two migrations of one checkout commute on every table of titles. */
  lemma MigrationsCommute(sources: seq<Source>, unescape: string -> string, t: Table)
    requires forall i, j | 0 <= i < j < |sources| :: sources[i].slug != sources[j].slug
    ensures var historical, utf8, reference := Extract(sources, true, true, unescape), Extract(sources, false, true, unescape), Extract(sources, false, false, unescape);
      Paired(utf8, historical) && Paired(reference, utf8) &&
      Upgrade(reference, utf8, historical, t) == Swapped(reference, utf8, historical, t)
  {
    var historical, utf8, reference := Extract(sources, true, true, unescape), Extract(sources, false, true, unescape), Extract(sources, false, false, unescape);
    OrderIff(reference, utf8, historical);
    hide Upgrade, Swapped, ShortTitle;
    forall i | 0 <= i < |reference|
      ensures historical[i].title == utf8[i].title || utf8[i].title == reference[i].title
    {
      if sources[i].override.None? { assert utf8[i].title == reference[i].title; }
    }
  }
}
