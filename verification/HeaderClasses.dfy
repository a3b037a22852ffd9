/** scripts/extract-navigation-reference.py, `HeaderClasses`: an event-driven HTML parser whose
    stack must answer "who is my parent" as the document tree would. */
module HeaderClasses {
  import opened Wrappers
  import opened PyText

  type Attrs = map<string, Option<string>>

  datatype Error = AttributeError | TypeError | ValueError
  datatype Row = Row(slug: string, nwsb: bool)
  datatype Open = Open(tag: string, attrs: Attrs)
  datatype Event = Start(tag: string, attrs: seq<(string, Option<string>)>) | End(tag: string)
  datatype State = State(stack: seq<Open>, rows: seq<Row>)

  const VOID: set<string> := {"area", "base", "br", "col", "embed", "hr", "img", "input", "link", "meta",
                              "param", "source", "track", "wbr"}
  const HOST := "//boards.4chan.org"

  /** dict(attrs): a repeated attribute keeps its last value. */
  function Dict(attrs: seq<(string, Option<string>)>): Attrs {
    if attrs == [] then map[] else Dict(attrs[..|attrs| - 1])[attrs[|attrs| - 1].0 := attrs[|attrs| - 1].1]
  }

  /** a.get('class', '').split(); a class attribute without a value has none to split. */
  function Classes(a: Attrs): Result<seq<string>, Error> {
    if "class" !in a then Ok([])
    else if a["class"].None? then Err(AttributeError)
    else Ok(Words(a["class"].value))
  }

  /** any('boardList' in ... for _, a in stack), from the outermost element inwards. */
  function InBoardList(stack: seq<Open>): Result<bool, Error> {
    if stack == [] then Ok(false)
    else
      match Classes(stack[0].attrs)
      case Err(e) => Err(e)
      case Ok(words) => if "boardList" in words then Ok(true) else InBoardList(stack[1..])
  }

  predicate IsSlugChar(c: char) { 'a' <= c <= 'z' || '0' <= c <= '9' }

  /** The slug of `/slug/`, with or without the board host in front. */
  function BoardSlug(href: string): Option<string> {
    PathSlug(if HOST <= href then href[|HOST|..] else href)
  }

  function PathSlug(path: string): Option<string> {
    if |path| >= 3 && path[0] == '/' && path[|path| - 1] == '/' &&
       (forall i | 0 < i < |path| - 1 :: IsSlugChar(path[i]))
    then Some(path[1..|path| - 1]) else None
  }

  /** What an anchor inside `ancestors` contributes: nothing, a row, or an exception. */
  function Judge(ancestors: seq<Open>, a: Attrs): Result<seq<Row>, Error> {
    match InBoardList(ancestors)
    case Err(e) => Err(e)
    case Ok(false) => Ok([])
    case Ok(true) =>
      if "href" in a && a["href"].None? then Err(TypeError)
      else
        match BoardSlug(if "href" in a then a["href"].value else "")
        case None => Err(ValueError)
        case Some(slug) =>
          if ancestors == [] then Ok([])
          else
            match Classes(ancestors[|ancestors| - 1].attrs)
            case Err(e) => Err(e)
            case Ok(words) => Ok([Row(slug, "nwsb" in words)])
  }

  function StartTag(s: State, tag: string, a: Attrs): Result<State, Error> {
    var judged := if tag == "a" then Judge(s.stack, a) else Ok([]);
    match judged
    case Err(e) => Err(e)
    case Ok(rows) => Ok(State(if tag in VOID then s.stack else s.stack + [Open(tag, a)], s.rows + rows))
  }

  /** Drops the innermost open element of that tag and everything inside it. */
  function EndTag(stack: seq<Open>, tag: string): seq<Open> {
    if exists i | 0 <= i < |stack| :: stack[i].tag == tag then stack[..LastOf(stack, tag)] else stack
  }

  function LastOf(stack: seq<Open>, tag: string): (k: nat)
    requires exists i | 0 <= i < |stack| :: stack[i].tag == tag
    ensures k < |stack| && stack[k].tag == tag
    ensures forall i | k < i < |stack| :: stack[i].tag != tag
  {
    var last := |stack| - 1;
    if stack[last].tag == tag then last
    else
      assert forall i | 0 <= i < last :: stack[..last][i] == stack[i];
      LastOf(stack[..last], tag)
  }

  function Feed(events: seq<Event>, s: State): Result<State, Error> {
    if events == [] then Ok(s)
    else
      match events[0] {
        case Start(tag, attrs) =>
          (match StartTag(s, tag, Dict(attrs))
           case Err(e) => Err(e)
           case Ok(t) => Feed(events[1..], t))
        case End(tag) => Feed(events[1..], s.(stack := EndTag(s.stack, tag)))
      }
  }

  // ----- The document tree -----

  /** The elements of HTML that have no content and no end tag. */
  predicate IsVoidElement(tag: string) {
    tag in {"area", "base", "br", "col", "embed", "hr", "img", "input", "link", "meta", "param", "source", "track", "wbr"}
  }

  /** An element whose end tag may be missing, a void element, or text. */
  datatype Node =
    | Element(tag: string, attrs: seq<(string, Option<string>)>, children: seq<Node>, closed: bool)
    | Void(tag: string, attrs: seq<(string, Option<string>)>)
    | Text

  /** Elements still open at the end of a list: its last element, if unclosed, and so on inwards. */
  function OpenEnd(nodes: seq<Node>): seq<Open>
    decreases nodes, 1
  {
    if nodes == [] then [] else NodeOpen(nodes[|nodes| - 1])
  }

  function NodeOpen(n: Node): seq<Open>
    decreases n, 0
  {
    if !n.Element? || n.closed then [] else [Open(n.tag, Dict(n.attrs))] + OpenEnd(n.children)
  }

  /** End tags may be left out only where the parent's end tag closes the element as well. */
  ghost predicate WellFormed(nodes: seq<Node>) {
    nodes == [] ||
    var n, rest := nodes[0], nodes[1..];
    && WellFormed(rest)
    && match n {
         case Text => true
         case Void(tag, _) => IsVoidElement(tag)
         case Element(tag, _, children, closed) =>
           && !IsVoidElement(tag) && WellFormed(children)
           && (closed || rest == [])
           && (closed ==> forall i | 0 <= i < |OpenEnd(children)| :: OpenEnd(children)[i].tag != tag)
       }
  }

  function Serialize(nodes: seq<Node>): seq<Event>
    decreases nodes, 1
  {
    if nodes == [] then [] else NodeEvents(nodes[0]) + Serialize(nodes[1..])
  }

  function NodeEvents(n: Node): seq<Event>
    decreases n, 0
  {
    match n
    case Text => []
    case Void(tag, attrs) => [Start(tag, attrs)]
    case Element(tag, attrs, children, closed) =>
      [Start(tag, attrs)] + (Serialize(children) + if closed then [End(tag)] else [])
  }

  /** Every `a` element in document order, with its chain of ancestors in the tree. */
  function Anchors(nodes: seq<Node>, ancestors: seq<Open>): seq<(seq<Open>, Attrs)>
    decreases nodes, 1
  {
    if nodes == [] then [] else NodeAnchors(nodes[0], ancestors) + Anchors(nodes[1..], ancestors)
  }

  function NodeAnchors(n: Node, ancestors: seq<Open>): seq<(seq<Open>, Attrs)>
    decreases n, 0
  {
    match n
    case Element(tag, attrs, children, _) =>
      (if tag == "a" then [(ancestors, Dict(attrs))] else []) + Anchors(children, ancestors + [Open(tag, Dict(attrs))])
    case _ => []
  }

  /** The rows the anchors deserve, or the first exception. */
  function Collect(anchors: seq<(seq<Open>, Attrs)>): Result<seq<Row>, Error> {
    if anchors == [] then Ok([])
    else
      match Judge(anchors[0].0, anchors[0].1)
      case Err(e) => Err(e)
      case Ok(rows) =>
        match Collect(anchors[1..])
        case Err(e) => Err(e)
        case Ok(more) => Ok(rows + more)
  }

  /** `r` after everything else `next` adds. */
  function Then(r: Result<seq<Row>, Error>, next: Result<seq<Row>, Error>): Result<seq<Row>, Error> {
    match r
    case Err(e) => Err(e)
    case Ok(rows) => match next { case Err(e) => Err(e) case Ok(more) => Ok(rows + more) }
  }

  lemma {:induction false} CollectAppend(a: seq<(seq<Open>, Attrs)>, b: seq<(seq<Open>, Attrs)>)
    ensures Collect(a + b) == Then(Collect(a), Collect(b))
  {
    hide Judge;
    if a == [] {
      assert a + b == b;
      if Collect(b).Ok? { ThenAssoc(Collect(b).value, [], []); }
    } else {
      assert (a + b)[1..] == a[1..] + b;
      CollectAppend(a[1..], b);
      var own, more := Judge(a[0].0, a[0].1), Collect(a[1..]);
      if own.Ok? && more.Ok? && Collect(b).Ok? { ThenAssoc(own.value, more.value, Collect(b).value); }
    }
  }

  lemma {:induction false} FeedAppend(a: seq<Event>, b: seq<Event>, s: State)
    ensures Feed(a + b, s) == match Feed(a, s) { case Err(e) => Err(e) case Ok(t) => Feed(b, t) }
  {
    hide StartTag, EndTag;
    if a == [] {
      assert a + b == b;
    } else {
      assert (a + b)[1..] == a[1..] + b;
      match a[0]
      case Start(tag, attrs) =>
        if StartTag(s, tag, Dict(attrs)).Ok? { FeedAppend(a[1..], b, StartTag(s, tag, Dict(attrs)).value); }
      case End(tag) => FeedAppend(a[1..], b, s.(stack := EndTag(s.stack, tag)));
    }
  }

  /** What feeding a part of the document must produce. */
  function After(s: State, pending: seq<Open>, r: Result<seq<Row>, Error>): Result<State, Error> {
    match r
    case Err(e) => Err(e)
    case Ok(rows) => Ok(State(s.stack + pending, s.rows + rows))
  }

  lemma EndClosesElement(stack: seq<Open>, o: Open, inner: seq<Open>)
    requires forall i | 0 <= i < |inner| :: inner[i].tag != o.tag
    ensures EndTag(stack + [o] + inner, o.tag) == stack
  {
    var all := stack + [o] + inner;
    assert all[|stack|].tag == o.tag;
    assert LastOf(all, o.tag) == |stack|;
    assert all[..|stack|] == stack;
  }

  lemma ThenAssoc(a: seq<Row>, b: seq<Row>, c: seq<Row>)
    ensures a + b + c == a + (b + c)
    ensures a + [] == a && [] + a == a
  {
  }

  lemma StartFeeds(tag: string, attrs: seq<(string, Option<string>)>, tail: seq<Event>, s: State, own: Result<seq<Row>, Error>)
    requires tag !in VOID
    requires own == if tag == "a" then Judge(s.stack, Dict(attrs)) else Ok([])
    ensures Feed([Start(tag, attrs)] + tail, s)
         == match own {
              case Err(e) => Err(e)
              case Ok(rows) => Feed(tail, State(s.stack + [Open(tag, Dict(attrs))], s.rows + rows))
            }
  {
    hide Judge, Dict;
    assert ([Start(tag, attrs)] + tail)[1..] == tail;
  }

  /** The end of an element, once its children have been fed. */
  lemma TailFeeds(o: Open, children: seq<Event>, closed: bool, inner: seq<Open>, more: Result<seq<Row>, Error>, stack: seq<Open>, rows: seq<Row>)
    requires closed ==> forall i | 0 <= i < |inner| :: inner[i].tag != o.tag
    requires Feed(children, State(stack + [o], rows)) == After(State(stack + [o], rows), inner, more)
    ensures Feed(children + if closed then [End(o.tag)] else [], State(stack + [o], rows))
         == After(State(stack, rows), if closed then [] else [o] + inner, more)
  {
    FeedAppend(children, if closed then [End(o.tag)] else [], State(stack + [o], rows));
    if closed {
      EndClosesElement(stack, o, inner);
      hide EndTag;
      assert [End(o.tag)][1..] == [];
      assert stack + [] == stack;
    } else {
      assert stack + [o] + inner == stack + ([o] + inner);
    }
  }

  /** One element: its start tag, its children, its end tag if it has one. */
  lemma ElementFeeds(tag: string, attrs: seq<(string, Option<string>)>, children: seq<Node>, closed: bool, s: State)
    requires tag !in VOID
    requires closed ==> forall i | 0 <= i < |OpenEnd(children)| :: OpenEnd(children)[i].tag != tag
    requires forall t: State ::
      Feed(Serialize(children), t) == After(t, OpenEnd(children), Collect(Anchors(children, t.stack)))
    ensures Feed([Start(tag, attrs)] + (Serialize(children) + if closed then [End(tag)] else []), s)
         == After(s, if closed then [] else [Open(tag, Dict(attrs))] + OpenEnd(children),
                  Then(if tag == "a" then Judge(s.stack, Dict(attrs)) else Ok([]),
                       Collect(Anchors(children, s.stack + [Open(tag, Dict(attrs))]))))
  {
    hide Judge, Serialize, OpenEnd, Anchors, Collect, Feed, Dict;
    var o := Open(tag, Dict(attrs));
    var own := if tag == "a" then Judge(s.stack, Dict(attrs)) else Ok([]);
    StartFeeds(tag, attrs, Serialize(children) + if closed then [End(tag)] else [], s, own);
    if own.Ok? {
      var rows := s.rows + own.value;
      var more := Collect(Anchors(children, s.stack + [o]));
      TailFeeds(o, Serialize(children), closed, OpenEnd(children), more, s.stack, rows);
      AfterThen(s, State(s.stack, rows), if closed then [] else [o] + OpenEnd(children), own.value, more);
    }
  }

  lemma VoidFeeds(tag: string, attrs: seq<(string, Option<string>)>, s: State)
    requires tag in VOID
    ensures Feed([Start(tag, attrs)], s) == Ok(s)
  {
    assert tag != "a";
    assert [Start(tag, attrs)][1..] == [];
    assert s.rows + [] == s.rows;
  }

  lemma AnchorsOfElement(tag: string, attrs: seq<(string, Option<string>)>, children: seq<Node>, closed: bool, ancestors: seq<Open>)
    ensures Collect(NodeAnchors(Element(tag, attrs, children, closed), ancestors))
         == Then(if tag == "a" then Judge(ancestors, Dict(attrs)) else Ok([]),
                 Collect(Anchors(children, ancestors + [Open(tag, Dict(attrs))])))
  {
    hide Judge, Anchors;
    var own := if tag == "a" then [(ancestors, Dict(attrs))] else [];
    var inner := Anchors(children, ancestors + [Open(tag, Dict(attrs))]);
    CollectAppend(own, inner);
    assert own != [] ==> own[1..] == [];
    if tag == "a" && Judge(ancestors, Dict(attrs)).Ok? {
      ThenAssoc(Judge(ancestors, Dict(attrs)).value, [], []);
    }
  }

  lemma {:induction false} NodeFeeds(n: Node, s: State)
    requires WellFormed([n])
    ensures Feed(NodeEvents(n), s) == After(s, NodeOpen(n), Collect(NodeAnchors(n, s.stack)))
    decreases n, 1
  {
    assert s.stack + [] == s.stack && s.rows + [] == s.rows;
    match n
    case Text =>
    case Void(tag, attrs) => VoidFeeds(tag, attrs, s);
    case Element(tag, attrs, children, closed) =>
      forall t: State
        ensures Feed(Serialize(children), t) == After(t, OpenEnd(children), Collect(Anchors(children, t.stack)))
      {
        ForestFeeds(children, t);
      }
      ElementFeeds(tag, attrs, children, closed, s);
      AnchorsOfElement(tag, attrs, children, closed, s.stack);
  }

  lemma OpenEndStep(n: Node, rest: seq<Node>)
    ensures OpenEnd([n] + rest) == if rest == [] then NodeOpen(n) else OpenEnd(rest)
  {
    assert rest != [] ==> ([n] + rest)[|rest|] == rest[|rest| - 1];
  }

  lemma AfterThen(s: State, t: State, pending: seq<Open>, a: seq<Row>, r: Result<seq<Row>, Error>)
    requires t == State(s.stack, s.rows + a)
    ensures After(t, pending, r) == After(s, pending, Then(Ok(a), r))
  {
    if r.Ok? { ThenAssoc(s.rows, a, r.value); }
  }

  /** Feeding the serialised forest from any stack: the stack grows by just the elements left
      open, and the rows are those of the tree's anchors under their true ancestors. */
  lemma {:induction false} ForestFeeds(nodes: seq<Node>, s: State)
    requires WellFormed(nodes)
    ensures Feed(Serialize(nodes), s) == After(s, OpenEnd(nodes), Collect(Anchors(nodes, s.stack)))
    decreases nodes, 2
  {
    if nodes == [] {
      assert s.stack + [] == s.stack && s.rows + [] == s.rows;
    } else {
      var n, rest := nodes[0], nodes[1..];
      assert nodes == [n] + rest;
      assert [n][1..] == [] && WellFormed([n]);
      OpenEndStep(n, rest);
      NodeFeeds(n, s);
      CollectAppend(NodeAnchors(n, s.stack), Anchors(rest, s.stack));
      assert Anchors(nodes, s.stack) == NodeAnchors(n, s.stack) + Anchors(rest, s.stack);
      assert Serialize(nodes) == NodeEvents(n) + Serialize(rest);
      FeedAppend(NodeEvents(n), Serialize(rest), s);
      var own := Collect(NodeAnchors(n, s.stack));
      if own.Ok? {
        var t := State(s.stack + NodeOpen(n), s.rows + own.value);
        assert After(s, NodeOpen(n), own) == Ok(t);
        if rest == [] {
          ThenAssoc(own.value, [], []);
        } else {
          assert NodeOpen(n) == [];
          assert s.stack + [] == s.stack;
          ForestFeeds(rest, t);
          AfterThen(s, t, OpenEnd(rest), own.value, Collect(Anchors(rest, s.stack)));
        }
      }
    }
  }

  /** A document with every end tag in place leaves the stack as it was, and `header_classes`
      returns exactly what its anchors deserve. */
  lemma DocumentRows(nodes: seq<Node>, stack: seq<Open>)
    requires WellFormed(nodes) && OpenEnd(nodes) == []
    ensures Feed(Serialize(nodes), State(stack, [])) == After(State(stack, []), [], Collect(Anchors(nodes, stack)))
    ensures Feed(Serialize(nodes), State(stack, [])).Ok? ==>
      Feed(Serialize(nodes), State(stack, [])) == Ok(State(stack, Collect(Anchors(nodes, stack)).value))
  {
    ForestFeeds(nodes, State(stack, []));
    assert stack + [] == stack;
    if Collect(Anchors(nodes, stack)).Ok? { ThenAssoc(Collect(Anchors(nodes, stack)).value, [], []); }
  }

  /** An element's classes can be read: a class attribute, if any, has a value. */
  predicate Readable(a: Attrs) { "class" in a ==> a["class"].Some? }

  /** `name` is a whole word of the class attribute. */
  ghost predicate HasClass(a: Attrs, name: string) {
    "class" in a && a["class"].Some? && exists before, behind :: WordAt(a["class"].value, before, name, behind)
  }

  lemma ClassesAre(a: Attrs, name: string)
    ensures Classes(a) == Err(AttributeError) <==> !Readable(a)
    ensures Classes(a).Ok? <==> Readable(a)
    ensures Classes(a).Ok? ==> (name in Classes(a).value <==> HasClass(a, name))
  {
    if "class" in a && a["class"].Some? { WordsIff(a["class"].value, name); }
    hide WordAt, Words;
  }

  /** dict(attrs) holds each name with its last value. */
  lemma {:induction false} DictIsLast(attrs: seq<(string, Option<string>)>, i: nat)
    requires i < |attrs| && forall j | i < j < |attrs| :: attrs[j].0 != attrs[i].0
    ensures attrs[i].0 in Dict(attrs) && Dict(attrs)[attrs[i].0] == attrs[i].1
  {
    if i < |attrs| - 1 {
      var front := attrs[..|attrs| - 1];
      assert forall j | 0 <= j < |front| :: front[j] == attrs[j];
      DictIsLast(front, i);
    }
  }

  lemma {:induction false} DictHasOnly(attrs: seq<(string, Option<string>)>, name: string)
    ensures name in Dict(attrs) ==> exists i | 0 <= i < |attrs| :: attrs[i].0 == name
  {
    if attrs != [] {
      var front := attrs[..|attrs| - 1];
      DictHasOnly(front, name);
      if i :| 0 <= i < |front| && front[i].0 == name { assert attrs[i].0 == name; }
    }
  }

  /** A board link: the slug between slashes, the host before it or not. */
  predicate IsBoardLink(href: string, slug: string) {
    && slug != [] && (forall i | 0 <= i < |slug| :: 'a' <= slug[i] <= 'z' || '0' <= slug[i] <= '9')
    && (href == "/" + slug + "/" || href == "//boards.4chan.org" + ("/" + slug + "/"))
  }

  lemma SlugChars(href: string, path: string, slug: string)
    requires BoardSlug(href) == Some(slug) && path == if HOST <= href then href[|HOST|..] else href
    ensures |path| == |slug| + 2 && path[0] == '/' == path[|path| - 1] && slug == path[1..|path| - 1]
    ensures forall i | 0 <= i < |slug| :: 'a' <= slug[i] <= 'z' || '0' <= slug[i] <= '9'
    ensures slug != []
  {
    assert PathSlug(path) == Some(slug);
    forall i | 0 <= i < |slug| ensures IsSlugChar(slug[i]) { assert slug[i] == path[i + 1]; }
  }

  lemma SlugIff(href: string, slug: string)
    ensures BoardSlug(href) == Some(slug) <==> IsBoardLink(href, slug)
  {
    var host := "//boards.4chan.org";
    if BoardSlug(href) == Some(slug) {
      var path := if HOST <= href then href[|HOST|..] else href;
      SlugChars(href, path, slug);
      assert path == "/" + slug + "/";
      if HOST <= href { assert href == host + path; }
    }
    if IsBoardLink(href, slug) {
      var path := "/" + slug + "/";
      assert path[1..|path| - 1] == slug;
      forall i | 0 < i < |path| - 1 ensures IsSlugChar(path[i]) { assert path[i] == slug[i - 1]; }
      if href == path {
        assert href[1] == slug[0] && host[1] == '/';
      } else {
        assert href[..|host|] == host && href[|host|..] == path;
      }
    }
  }

  /** The `any` over the stack stops at element `i`, a boardList, after elements it could read. */
  ghost predicate FoundAt(stack: seq<Open>, i: nat) {
    i < |stack| && (forall j | 0 <= j <= i :: Readable(stack[j].attrs)) && HasClass(stack[i].attrs, "boardList")
  }

  /** When the `any` finds a boardList and when it finds none; otherwise it raises. */
  lemma {:induction false} InBoardListIff(stack: seq<Open>)
    ensures InBoardList(stack) == Ok(true) <==> exists i: nat :: FoundAt(stack, i)
    ensures InBoardList(stack) == Ok(false) <==>
      forall i | 0 <= i < |stack| :: Readable(stack[i].attrs) && !HasClass(stack[i].attrs, "boardList")
    ensures InBoardList(stack).Err? ==> InBoardList(stack) == Err(AttributeError)
  {
    hide Classes, Readable, HasClass;
    if stack != [] {
      ClassesAre(stack[0].attrs, "boardList");
      InBoardListIff(stack[1..]);
      assert forall i | 0 <= i < |stack| - 1 :: stack[1..][i] == stack[i + 1];
      if Readable(stack[0].attrs) {
        if HasClass(stack[0].attrs, "boardList") {
          assert FoundAt(stack, 0);
        } else {
          if i: nat :| FoundAt(stack, i) { assert FoundAt(stack[1..], i - 1); }
          if i: nat :| FoundAt(stack[1..], i) { assert FoundAt(stack, i + 1); }
          assert forall i | 0 < i < |stack| :: stack[i] == stack[1..][i - 1];
        }
      }
    }
  }

  /** What a row says: the `any` finds a boardList among the ancestors, the link is the row's board
      link, and the flag is the parent's. */
  lemma RowMeans(ancestors: seq<Open>, a: Attrs, row: Row)
    ensures Judge(ancestors, a) == Ok([row]) <==>
      && (exists i: nat :: FoundAt(ancestors, i))
      && "href" in a && a["href"].Some? && IsBoardLink(a["href"].value, row.slug)
      && Readable(ancestors[|ancestors| - 1].attrs)
      && row.nwsb == HasClass(ancestors[|ancestors| - 1].attrs, "nwsb")
  {
    hide Classes, BoardSlug, IsBoardLink, InBoardList, Readable, HasClass;
    InBoardListIff(ancestors);
    NoSlug();
    if "href" in a && a["href"].Some? { SlugIff(a["href"].value, row.slug); }
    if ancestors != [] { ClassesAre(ancestors[|ancestors| - 1].attrs, "nwsb"); }
  }

  lemma NoSlug()
    ensures BoardSlug("").None?
  {
  }

  /** When there is no row: outside a boardList; or an exception, and which. */
  lemma NoRowMeans(ancestors: seq<Open>, a: Attrs)
    ensures var found := exists i: nat :: FoundAt(ancestors, i);
      var unlinked := forall slug :: "href" in a && a["href"].Some? ==> !IsBoardLink(a["href"].value, slug);
      && (Judge(ancestors, a) == Ok([]) <==>
            forall i | 0 <= i < |ancestors| :: Readable(ancestors[i].attrs) && !HasClass(ancestors[i].attrs, "boardList"))
      && (Judge(ancestors, a) == Err(TypeError) <==> found && "href" in a && a["href"].None?)
      && (Judge(ancestors, a) == Err(ValueError) <==> found && !("href" in a && a["href"].None?) && unlinked)
      && (Judge(ancestors, a).Ok? ==> |Judge(ancestors, a).value| <= 1)
  {
    hide Classes, BoardSlug, IsBoardLink, InBoardList, Readable, HasClass;
    InBoardListIff(ancestors);
    NoSlug();
    if "href" in a && a["href"].Some? {
      forall slug ensures BoardSlug(a["href"].value) == Some(slug) <==> IsBoardLink(a["href"].value, slug) {
        SlugIff(a["href"].value, slug);
      }
      if BoardSlug(a["href"].value).Some? { assert IsBoardLink(a["href"].value, BoardSlug(a["href"].value).value); }
    }
    if ancestors != [] { ClassesAre(ancestors[|ancestors| - 1].attrs, "nwsb"); }
  }

  /** An element left open is not ended by a later sibling: the events, and so the parser's
      answers, are those of the tree in which everything after it is inside it. */
  lemma UnclosedSwallows(tag: string, attrs: seq<(string, Option<string>)>, children: seq<Node>, later: seq<Node>)
    ensures Serialize([Element(tag, attrs, children, false)] + later) == Serialize([Element(tag, attrs, children + later, false)])
  {
    var one, two := Element(tag, attrs, children, false), Element(tag, attrs, children + later, false);
    SerializeAppend(children, later);
    hide Serialize;
    assert NodeEvents(one) == [Start(tag, attrs)] + (Serialize(children) + []);
    assert NodeEvents(two) == [Start(tag, attrs)] + (Serialize(children + later) + []);
    SerializeOne(one);
    SerializeOne(two);
    SerializeAppend([one], later);
  }

  lemma SerializeOne(n: Node)
    ensures Serialize([n]) == NodeEvents(n)
  {
    assert [n][1..] == [] && NodeEvents(n) + [] == NodeEvents(n);
  }

  lemma {:induction false} SerializeAppend(a: seq<Node>, b: seq<Node>)
    ensures Serialize(a + b) == Serialize(a) + Serialize(b)
  {
    hide NodeEvents;
    if a == [] {
      assert a + b == b;
    } else {
      assert (a + b)[1..] == a[1..] + b;
      SerializeAppend(a[1..], b);
    }
  }

  // ----- The parser class -----

  class Parser {
    var stack: seq<Open>
    var rows: seq<Row>

    function Abstract(): State
      reads this
    {
      State(stack, rows)
    }

    constructor ()
      ensures Abstract() == State([], [])
    {
      stack, rows := [], [];
    }

    /** An exception leaves the fields as they were. */
    method HandleStartTag(tag: string, attrs: seq<(string, Option<string>)>) returns (error: Option<Error>)
      modifies this
      ensures match StartTag(old(Abstract()), tag, Dict(attrs))
              case Err(e) => error == Some(e) && Abstract() == old(Abstract())
              case Ok(s) => error == None && Abstract() == s
    {
      hide Judge;
      var d := Dict(attrs);
      if tag == "a" {
        match Judge(stack, d)
        case Err(e) => return Some(e);
        case Ok(more) => rows := rows + more;
      } else {
        assert rows + [] == rows;
      }
      if tag !in VOID { stack := stack + [Open(tag, d)]; }
      return None;
    }

    method HandleEndTag(tag: string)
      modifies this`stack
      ensures stack == EndTag(old(stack), tag)
    {
      var i := |stack| - 1;
      while i >= 0
        invariant -1 <= i < |stack| && stack == old(stack)
        invariant forall j | i < j < |stack| :: stack[j].tag != tag
      {
        if stack[i].tag == tag {
          stack := stack[..i];
          return;
        }
        i := i - 1;
      }
    }

    /** The parser over a whole event list. */
    method Run(events: seq<Event>) returns (error: Option<Error>)
      modifies this
      ensures match Feed(events, old(Abstract()))
              case Err(e) => error == Some(e)
              case Ok(s) => error == None && Abstract() == s
    {
      hide StartTag, EndTag;
      for k := 0 to |events|
        invariant Feed(events, old(Abstract())) == Feed(events[k..], Abstract())
      {
        assert events[k..][1..] == events[k + 1..];
        match events[k] {
          case Start(tag, attrs) =>
            error := HandleStartTag(tag, attrs);
            if error.Some? { return; }
          case End(tag) =>
            HandleEndTag(tag);
        }
      }
      return None;
    }
  }
}
