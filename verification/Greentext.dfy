/** scripts/extract-greentext-reference.py: the loop that turns a comment into wrapped, escaped
    and joined text, against the steps that undo it. */
module Greentext {
  const MARK := "{{w_br}}"
  const BR := "<br>"
  const WIDTH := 35

  // ----- Splitting and joining -----

  /** str.split on one character: at least one part. */
  function Split(s: string, sep: char): (parts: seq<string>)
    ensures parts != []
    ensures forall i | 0 <= i < |parts| :: sep !in parts[i]
  {
    if s == [] then [[]]
    else
      var more := Split(s[1..], sep);
      if s[0] == sep then [[]] + more else [[s[0]] + more[0]] + more[1..]
  }

  /** sep.join(parts) */
  function Join(parts: seq<string>, sep: string): string {
    if parts == [] then [] else if |parts| == 1 then parts[0] else parts[0] + sep + Join(parts[1..], sep)
  }

  lemma {:induction false} JoinSplit(s: string, sep: char)
    ensures Join(Split(s, sep), [sep]) == s
  {
    if s != [] {
      var more := Split(s[1..], sep);
      JoinSplit(s[1..], sep);
      var parts := Split(s, sep);
      if s[0] == sep {
        assert parts[1..] == more;
        assert s == [] + [sep] + s[1..];
      } else {
        assert parts[1..] == more[1..];
        assert s == [s[0]] + s[1..];
      }
    }
  }

  // ----- Wrapping -----

  /** The characters of a word, the marker after every 35th; `i` characters came before. */
  function WrapFrom(word: string, i: nat): string {
    if word == [] then []
    else [word[0]] + (if (i + 1) % WIDTH == 0 then MARK else []) + WrapFrom(word[1..], i + 1)
  }

  function Chunks(word: string): (chunks: seq<string>)
    ensures chunks != []
    ensures forall i | 0 <= i < |chunks| - 1 :: |chunks[i]| == WIDTH
    ensures |chunks[|chunks| - 1]| < WIDTH
  {
    if |word| < WIDTH then [word] else [word[..WIDTH]] + Chunks(word[WIDTH..])
  }

  /** Up to the next marker the word is copied. */
  lemma {:induction false} WrapCopies(word: string, i: nat, n: nat)
    requires n <= |word| && i % WIDTH + n < WIDTH
    ensures WrapFrom(word, i) == word[..n] + WrapFrom(word[n..], i + n)
    decreases n
  {
    if n == 0 {
      assert word[0..] == word;
    } else {
      assert (i + 1) % WIDTH == i % WIDTH + 1;
      assert WrapFrom(word, i) == [word[0]] + WrapFrom(word[1..], i + 1);
      WrapCopies(word[1..], i + 1, n - 1);
      hide WrapFrom;
      assert word[1..][n - 1..] == word[n..];
      assert word[..n] == [word[0]] + word[1..][..n - 1];
    }
  }

  lemma JoinCons(first: string, more: seq<string>, sep: string)
    requires more != []
    ensures Join([first] + more, sep) == first + sep + Join(more, sep)
  {
    assert ([first] + more)[1..] == more;
  }

  lemma WrapFirst(word: string, i: nat)
    requires i % WIDTH == 0 && |word| >= WIDTH
    ensures WrapFrom(word, i) == word[..WIDTH] + MARK + WrapFrom(word[WIDTH..], i + WIDTH)
  {
    var n := WIDTH - 1;
    WrapCopies(word, i, n);
    var tail := word[n..];
    assert tail[0] == word[n] && tail[1..] == word[WIDTH..];
    assert (i + n + 1) % WIDTH == 0;
    assert WrapFrom(tail, i + n) == [word[n]] + MARK + WrapFrom(word[WIDTH..], i + WIDTH);
    hide WrapFrom;
    assert word[..WIDTH] == word[..n] + [word[n]];
  }

  /** Wrapping puts the marker between chunks: none is longer than 35 characters, all but the
      last are exactly 35, and together they are the word. */
  lemma {:induction false} WrapIsChunks(word: string, i: nat)
    requires i % WIDTH == 0
    ensures WrapFrom(word, i) == Join(Chunks(word), MARK)
    ensures Join(Chunks(word), []) == word
    decreases |word|
  {
    if |word| < WIDTH {
      WrapCopies(word, i, |word|);
      assert word[|word|..] == [] && word[..|word|] == word;
    } else {
      WrapFirst(word, i);
      WrapIsChunks(word[WIDTH..], i + WIDTH);
      hide WrapFrom;
      JoinCons(word[..WIDTH], Chunks(word[WIDTH..]), MARK);
      JoinCons(word[..WIDTH], Chunks(word[WIDTH..]), []);
      hide Join;
      assert word == word[..WIDTH] + [] + word[WIDTH..];
    }
  }

  // ----- Escaping -----

  function ReplaceChar(s: string, c: char, rep: string): string {
    if s == [] then [] else (if s[0] == c then rep else [s[0]]) + ReplaceChar(s[1..], c, rep)
  }

  /** html.escape(s, quote=False): three replacements, the ampersand first. */
  function HtmlEscape(s: string): string {
    ReplaceChar(ReplaceChar(ReplaceChar(s, '&', "&amp;"), '<', "&lt;"), '>', "&gt;")
  }

  function EscapeChar(c: char): string {
    if c == '&' then "&amp;" else if c == '<' then "&lt;" else if c == '>' then "&gt;" else [c]
  }

  /** Character by character. */
  function Escape(s: string): string {
    if s == [] then [] else EscapeChar(s[0]) + Escape(s[1..])
  }

  lemma {:induction false} ReplaceAppend(a: string, b: string, c: char, rep: string)
    ensures ReplaceChar(a + b, c, rep) == ReplaceChar(a, c, rep) + ReplaceChar(b, c, rep)
  {
    if a == [] {
      assert a + b == b;
    } else {
      assert (a + b)[1..] == a[1..] + b;
      ReplaceAppend(a[1..], b, c, rep);
    }
  }

  lemma {:induction false} ReplaceAbsent(s: string, c: char, rep: string)
    requires c !in s
    ensures ReplaceChar(s, c, rep) == s
  {
    if s != [] {
      ReplaceAbsent(s[1..], c, rep);
      assert s == [s[0]] + s[1..];
    }
  }

  lemma ReplaceSingle(c: char, x: char, rep: string)
    ensures ReplaceChar([c], x, rep) == if c == x then rep else [c]
  {
    assert [c][1..] == [];
  }

  lemma EscapesOne(c: char)
    ensures HtmlEscape([c]) == EscapeChar(c)
  {
    var amp := ReplaceChar([c], '&', "&amp;");
    ReplaceSingle(c, '&', "&amp;");
    ReplaceSingle(c, '<', "&lt;");
    ReplaceSingle(c, '>', "&gt;");
    hide ReplaceChar;
    if c == '<' {
      ReplaceAbsent("&lt;", '>', "&gt;");
    } else {
      ReplaceAbsent(amp, '<', "&lt;");
      if c != '>' { ReplaceAbsent(amp, '>', "&gt;"); }
    }
  }

  lemma HtmlEscapeAppend(a: string, b: string)
    ensures HtmlEscape(a + b) == HtmlEscape(a) + HtmlEscape(b)
  {
    var a1, b1 := ReplaceChar(a, '&', "&amp;"), ReplaceChar(b, '&', "&amp;");
    ReplaceAppend(a, b, '&', "&amp;");
    ReplaceAppend(a1, b1, '<', "&lt;");
    ReplaceAppend(ReplaceChar(a1, '<', "&lt;"), ReplaceChar(b1, '<', "&lt;"), '>', "&gt;");
    hide ReplaceChar;
  }

  /** With the ampersand first, the sequential escape is the character-wise one. */
  lemma {:induction false} SequentialEscape(s: string)
    ensures HtmlEscape(s) == Escape(s)
  {
    if s != [] {
      EscapesOne(s[0]);
      SequentialEscape(s[1..]);
      HtmlEscapeAppend([s[0]], s[1..]);
      hide HtmlEscape;
      assert s == [s[0]] + s[1..];
    }
  }

  lemma {:induction false} EscapeAppend(a: string, b: string)
    ensures Escape(a + b) == Escape(a) + Escape(b)
  {
    if a == [] {
      assert a + b == b;
    } else {
      assert (a + b)[1..] == a[1..] + b;
      EscapeAppend(a[1..], b);
    }
  }

  function Unescape(s: string): string
    decreases |s|
  {
    if s == [] then []
    else if "&amp;" <= s then "&" + Unescape(s[5..])
    else if "&lt;" <= s then "<" + Unescape(s[4..])
    else if "&gt;" <= s then ">" + Unescape(s[4..])
    else [s[0]] + Unescape(s[1..])
  }

  lemma UnescapeOne(c: char, rest: string)
    ensures Unescape(EscapeChar(c) + rest) == [c] + Unescape(rest)
  {
    var s := EscapeChar(c) + rest;
    if c == '&' {
      assert s[..5] == "&amp;" && s[5..] == rest;
    } else if c == '<' {
      assert s[..4] == "&lt;" && s[4..] == rest && s[1] == 'l';
    } else if c == '>' {
      assert s[..4] == "&gt;" && s[4..] == rest && s[1] == 'g';
    } else {
      assert s[0] == c && s[1..] == rest;
    }
  }

  lemma {:induction false} UnescapeEscape(s: string)
    ensures Unescape(Escape(s)) == s
  {
    if s != [] {
      UnescapeOne(s[0], Escape(s[1..]));
      UnescapeEscape(s[1..]);
      assert s == [s[0]] + s[1..];
    }
  }

  lemma {:induction false} EscapeHasNoAngle(s: string)
    ensures '<' !in Escape(s)
  {
    if s != [] { EscapeHasNoAngle(s[1..]); }
  }

  // ----- Removing the markers -----

  /** str.replace(MARK, "") */
  function Remove(s: string): string
    decreases |s|
  {
    if s == [] then [] else if MARK <= s then Remove(s[8..]) else [s[0]] + Remove(s[1..])
  }

  ghost predicate Contains(s: string) { exists i | 0 <= i <= |s| :: MARK <= s[i..] }

  /** No marker begins in `a` and ends beyond it. */
  ghost predicate NoSpan(a: string, b: string) {
    forall i | 0 <= i < |a| :: MARK <= (a + b)[i..] ==> i + 8 <= |a|
  }

  lemma {:induction false} RemoveAppend(a: string, b: string)
    requires NoSpan(a, b)
    ensures Remove(a + b) == Remove(a) + Remove(b)
    decreases |a|
  {
    hide NoSpan;
    var s := a + b;
    if a == [] {
      assert s == b;
    } else {
      NoSpanHere(a, b);
      if MARK <= s {
        NoSpanLater(a, b, 8);
        RemoveAppend(a[8..], b);
        assert s[8..] == a[8..] + b;
      } else {
        NoSpanLater(a, b, 1);
        RemoveAppend(a[1..], b);
        assert s[1..] == a[1..] + b;
      }
    }
  }

  lemma NoSpanHere(a: string, b: string)
    requires NoSpan(a, b) && a != []
    ensures MARK <= a + b <==> MARK <= a
  {
    var s := a + b;
    assert s[0..] == s;
    if |a| >= 8 { assert s[..8] == a[..8]; }
  }

  lemma NoSpanLater(a: string, b: string, k: nat)
    requires NoSpan(a, b) && k <= |a|
    ensures NoSpan(a[k..], b)
  {
    forall i | 0 <= i < |a[k..]| ensures MARK <= (a[k..] + b)[i..] ==> i + 8 <= |a[k..]| {
      assert (a[k..] + b)[i..] == (a + b)[i + k..];
    }
  }

  /** A marker overlaps neither another marker nor a character it does not contain. */
  lemma NoSpanBeforeMark(a: string, b: string)
    requires b == [] || MARK <= b || b[0] == ' '
    ensures NoSpan(a, b)
  {
    forall i | 0 <= i < |a| ensures MARK <= (a + b)[i..] ==> i + 8 <= |a| {
      var t := (a + b)[i..];
      var j := |a| - i;
      if j < 8 && b != [] {
        assert t[j] == b[0];
        assert |b| > 1 ==> t[j + 1] == b[1];
        assert MARK[j] == '{' ==> j == 1;
      }
    }
  }

  lemma RemoveMark(b: string)
    ensures Remove(MARK + b) == Remove(b)
    ensures Remove(" " + b) == " " + Remove(b)
  {
    assert (MARK + b)[8..] == b;
    assert (" " + b)[1..] == b;
    assert MARK[0] != ' ';
  }

  /** What removal leaves of a wrapped word: each chunk without the markers it held itself. */
  function Kept(chunks: seq<string>): string {
    if chunks == [] then [] else Remove(chunks[0]) + Kept(chunks[1..])
  }

  lemma {:induction false} RemoveChunks(chunks: seq<string>, rest: string)
    requires chunks != [] && (rest == [] || rest[0] == ' ')
    ensures Remove(Join(chunks, MARK) + rest) == Kept(chunks) + Remove(rest)
  {
    hide Remove, NoSpan;
    var first, more := chunks[0], chunks[1..];
    assert chunks == [first] + more;
    if more == [] {
      NoSpanBeforeMark(first, rest);
      RemoveAppend(first, rest);
    } else {
      var tail := Join(more, MARK) + rest;
      JoinCons(first, more, MARK);
      assert Join(chunks, MARK) + rest == first + (MARK + tail);
      NoSpanBeforeMark(first, MARK + tail);
      RemoveAppend(first, MARK + tail);
      RemoveMark(tail);
      hide Join;
      RemoveChunks(more, rest);
    }
  }

  lemma {:induction false} RemoveLength(s: string)
    ensures |Remove(s)| <= |s|
    ensures Contains(s) ==> |Remove(s)| < |s|
    ensures !Contains(s) ==> Remove(s) == s
    decreases |s|
  {
    if s == [] {
      assert forall i | 0 <= i <= |s| :: !(MARK <= s[i..]);
    } else if MARK <= s {
      assert s[0..] == s;
      RemoveLength(s[8..]);
    } else {
      RemoveLength(s[1..]);
      assert s[0..] == s && s == [s[0]] + s[1..];
      if Contains(s) {
        var i :| 0 <= i <= |s| && MARK <= s[i..];
        assert s[1..][i - 1..] == s[i..];
      }
      if Contains(s[1..]) {
        var i :| 0 <= i <= |s[1..]| && MARK <= s[1..][i..];
        assert s[i + 1..] == s[1..][i..];
      }
    }
  }

  /** Escaping neither makes nor breaks a marker, since no escape starts with one of its characters. */
  lemma {:induction false} MarkThroughEscape(k: nat, t: string)
    requires k <= 8
    ensures MARK[k..] <= Escape(t) <==> MARK[k..] <= t
    decreases 8 - k
  {
    if k < 8 && t != [] {
      var e := Escape(t);
      assert MARK[k] != '&' && MARK[k] != '<' && MARK[k] != '>';
      assert MARK[k..] == [MARK[k]] + MARK[k + 1..];
      if e[0] == MARK[k] {
        assert t[0] == MARK[k];
        assert e[1..] == Escape(t[1..]);
        MarkThroughEscape(k + 1, t[1..]);
        HeadThenTail(MARK[k], MARK[k + 1..], e);
        HeadThenTail(MARK[k], MARK[k + 1..], t);
      }
    }
  }

  lemma HeadThenTail(c: char, p: string, s: string)
    requires s != [] && s[0] == c
    ensures [c] + p <= s <==> p <= s[1..]
  {
    assert s == [c] + s[1..];
    if [c] + p <= s { assert s[..|p| + 1][1..] == p; }
  }

  lemma {:induction false} RemoveEscape(t: string)
    ensures Remove(Escape(t)) == Escape(Remove(t))
    decreases |t|
  {
    if t != [] {
      MarkThroughEscape(0, t);
      assert MARK[0..] == MARK;
      hide Remove, Escape;
      if MARK <= t {
        assert t == MARK + t[8..];
        RemoveEscape(t[8..]);
        RemoveEscapedMark(t[8..]);
      } else {
        assert t == [t[0]] + t[1..];
        RemoveEscape(t[1..]);
        RemoveEscapedHead(t[0], t[1..]);
      }
    } else {
      EmptyRemoved();
      EscapePlain(t);
    }
  }

  lemma RemoveEscapedMark(rest: string)
    requires Remove(Escape(rest)) == Escape(Remove(rest))
    ensures Remove(Escape(MARK + rest)) == Escape(Remove(MARK + rest))
  {
    EscapeAppend(MARK, rest);
    EscapePlain(MARK);
    hide Remove, Escape;
    RemoveMark(rest);
    RemoveMark(Escape(rest));
  }

  lemma RemoveEscapedHead(c: char, rest: string)
    requires Remove(Escape(rest)) == Escape(Remove(rest))
    requires !(MARK <= [c] + rest) && !(MARK <= Escape([c] + rest))
    ensures Remove(Escape([c] + rest)) == Escape(Remove([c] + rest))
  {
    var kept := Remove(rest);
    assert ([c] + rest)[1..] == rest && ([c] + kept)[1..] == kept;
    assert Escape([c] + rest) == EscapeChar(c) + Escape(rest);
    assert Escape([c] + kept) == EscapeChar(c) + Escape(kept);
    hide Escape, EscapeChar;
    assert Remove([c] + rest) == [c] + kept;
    hide Remove;
    RemoveEscapedChar(c, Escape(rest));
  }

  lemma {:induction false} EscapePlain(s: string)
    requires '&' !in s && '<' !in s && '>' !in s
    ensures Escape(s) == s
  {
    if s != [] {
      EscapePlain(s[1..]);
      assert s == [s[0]] + s[1..];
    }
  }

  lemma RemoveEscapedChar(c: char, rest: string)
    requires !(MARK <= EscapeChar(c) + rest)
    ensures Remove(EscapeChar(c) + rest) == EscapeChar(c) + Remove(rest)
  {
    var e := EscapeChar(c);
    forall i | 0 <= i < |e| ensures !(MARK <= (e + rest)[i..]) {
      if i == 0 { assert (e + rest)[0..] == e + rest; } else { assert (e + rest)[i..][0] == e[i] != MARK[0]; }
    }
    RemoveAppend(e, rest);
    RemoveNothing(e);
  }

  lemma {:induction false} RemoveNothing(s: string)
    requires |s| < 8
    ensures Remove(s) == s
  {
    if s != [] {
      RemoveNothing(s[1..]);
      assert s == [s[0]] + s[1..];
    }
  }

  // ----- The whole format -----

  function WrapAll(words: seq<string>): (r: seq<string>)
    ensures |r| == |words|
  {
    if words == [] then [] else [WrapFrom(words[0], 0)] + WrapAll(words[1..])
  }

  function EscapeAll(words: seq<string>): (r: seq<string>)
    ensures |r| == |words|
  {
    if words == [] then [] else [HtmlEscape(words[0])] + EscapeAll(words[1..])
  }

  function FormatLine(line: string): string { Join(EscapeAll(WrapAll(Split(line, ' '))), " ") }

  function FormatLines(lines: seq<string>): (r: seq<string>)
    ensures |r| == |lines|
  {
    if lines == [] then [] else [FormatLine(lines[0])] + FormatLines(lines[1..])
  }

  /** The preformatted text of a comment. */
  function Format(raw: string): string { Join(FormatLines(Split(raw, '\n')), BR) }

  function SplitBr(s: string): (parts: seq<string>)
    ensures parts != []
    decreases |s|
  {
    if s == [] then [[]]
    else if BR <= s then [[]] + SplitBr(s[4..])
    else
      var more := SplitBr(s[1..]);
      [[s[0]] + more[0]] + more[1..]
  }

  function UndoLines(lines: seq<string>): (r: seq<string>)
    ensures |r| == |lines|
  {
    if lines == [] then [] else [Unescape(Remove(lines[0]))] + UndoLines(lines[1..])
  }

  /** Split on the line break, remove the markers, unescape, join with newlines. */
  function Undo(text: string): string { Join(UndoLines(SplitBr(text)), "\n") }

  // ----- What undoing gives back -----

  /** No chunk of the word holds a marker of its own. */
  ghost predicate Clean(word: string) {
    forall i | 0 <= i < |Chunks(word)| :: !Contains(Chunks(word)[i])
  }

  function KeptWord(word: string): string { Kept(Chunks(word)) }

  function KeptWords(words: seq<string>): (r: seq<string>)
    ensures |r| == |words|
    ensures forall i | 0 <= i < |r| :: r[i] == KeptWord(words[i])
  {
    if words == [] then [] else [KeptWord(words[0])] + KeptWords(words[1..])
  }

  function KeptLine(line: string): string { Join(KeptWords(Split(line, ' ')), " ") }

  function KeptLines(lines: seq<string>): (r: seq<string>)
    ensures |r| == |lines|
    ensures forall i | 0 <= i < |r| :: r[i] == KeptLine(lines[i])
  {
    if lines == [] then [] else [KeptLine(lines[0])] + KeptLines(lines[1..])
  }

  lemma RemoveLastWord(word: string)
    ensures Remove(WrapFrom(word, 0)) == KeptWord(word)
  {
    WrapIsChunks(word, 0);
    RemoveChunks(Chunks(word), []);
    EmptyRemoved();
    hide Remove, WrapFrom, Chunks, Kept, Join;
    assert Join(Chunks(word), MARK) + [] == Join(Chunks(word), MARK);
  }

  lemma RemoveFirstWord(word: string, tail: string)
    ensures Remove(WrapFrom(word, 0) + " " + tail) == KeptWord(word) + " " + Remove(tail)
  {
    WrapIsChunks(word, 0);
    RemoveChunks(Chunks(word), " " + tail);
    RemoveMark(tail);
    hide Remove, WrapFrom, Chunks, Kept, Join;
    assert Join(Chunks(word), MARK) + " " + tail == Join(Chunks(word), MARK) + (" " + tail);
  }

  lemma {:induction false} RemoveWords(words: seq<string>)
    requires words != []
    ensures Remove(Join(WrapAll(words), " ")) == Join(KeptWords(words), " ")
  {
    hide Remove, WrapFrom, KeptWord;
    if |words| == 1 {
      RemoveLastWord(words[0]);
    } else {
      assert WrapAll(words)[1..] == WrapAll(words[1..]);
      assert KeptWords(words)[1..] == KeptWords(words[1..]);
      RemoveFirstWord(words[0], Join(WrapAll(words[1..]), " "));
      RemoveWords(words[1..]);
    }
  }

  lemma EmptyRemoved()
    ensures Remove([]) == []
  {
  }

  lemma {:induction false} EscapeJoin(parts: seq<string>)
    ensures Join(EscapeAll(parts), " ") == Escape(Join(parts, " "))
  {
    if parts != [] {
      SequentialEscape(parts[0]);
      if |parts| > 1 {
        EscapeJoin(parts[1..]);
        assert EscapeAll(parts)[1..] == EscapeAll(parts[1..]);
        EscapeAppend(parts[0] + " ", Join(parts[1..], " "));
        EscapeAppend(parts[0], " ");
        EscapePlain(" ");
      }
    }
  }

  /** One line comes back as its words without the markers their own chunks held. */
  lemma LineUndone(line: string)
    ensures Unescape(Remove(FormatLine(line))) == KeptLine(line)
    ensures '<' !in FormatLine(line)
  {
    var words := Split(line, ' ');
    var wrapped := Join(WrapAll(words), " ");
    EscapeJoin(WrapAll(words));
    EscapeHasNoAngle(wrapped);
    hide EscapeAll, WrapAll, Split, Join, Escape, Remove, KeptWords;
    RemoveEscape(wrapped);
    RemoveWords(words);
    UnescapeEscape(Remove(wrapped));
  }

  lemma {:induction false} LinesUndone(lines: seq<string>)
    ensures UndoLines(FormatLines(lines)) == KeptLines(lines)
    ensures forall i | 0 <= i < |FormatLines(lines)| :: '<' !in FormatLines(lines)[i]
  {
    if lines != [] {
      LineUndone(lines[0]);
      hide FormatLine, Remove, Unescape, KeptLine;
      LinesUndone(lines[1..]);
      assert FormatLines(lines)[1..] == FormatLines(lines[1..]);
    }
  }

  lemma SplitBrPlain(s: string)
    requires s != [] && s[0] != '<'
    ensures SplitBr(s) == [[s[0]] + SplitBr(s[1..])[0]] + SplitBr(s[1..])[1..]
  {
  }

  lemma {:induction false} SplitBrAtPart(part: string, rest: string)
    requires '<' !in part && (rest == [] || BR <= rest)
    ensures SplitBr(part + rest) == if rest == [] then [part] else [part] + SplitBr(rest[4..])
  {
    if part == [] {
      assert part + rest == rest;
    } else {
      var s, c, more := part + rest, part[0], part[1..];
      SplitBrAtPart(more, rest);
      assert part == [c] + more;
      assert s[0] == c && s[1..] == more + rest;
      SplitBrPlain(s);
      hide SplitBr;
      if rest != [] { assert ([more] + SplitBr(rest[4..]))[1..] == SplitBr(rest[4..]); }
    }
  }

  lemma SplitBrFirst(first: string, more: seq<string>)
    requires '<' !in first && more != [] && SplitBr(Join(more, BR)) == more
    ensures SplitBr(Join([first] + more, BR)) == [first] + more
  {
    JoinCons(first, more, BR);
    hide Join, SplitBr;
    var tail := Join(more, BR);
    assert first + BR + tail == first + (BR + tail);
    assert (BR + tail)[4..] == tail;
    SplitBrAtPart(first, BR + tail);
  }

  /** Escaped lines contain no `<`, so splitting on the line break finds exactly the lines. */
  lemma {:induction false} SplitBrJoin(parts: seq<string>)
    requires parts != [] && forall i | 0 <= i < |parts| :: '<' !in parts[i]
    ensures SplitBr(Join(parts, BR)) == parts
  {
    if |parts| == 1 {
      SplitBrAtPart(parts[0], []);
      assert parts[0] + [] == parts[0];
      assert parts == [parts[0]];
    } else {
      assert parts == [parts[0]] + parts[1..];
      SplitBrJoin(parts[1..]);
      SplitBrFirst(parts[0], parts[1..]);
    }
  }

  lemma Undone(raw: string)
    ensures Undo(Format(raw)) == Join(KeptLines(Split(raw, '\n')), "\n")
  {
    var lines := Split(raw, '\n');
    LinesUndone(lines);
    hide FormatLines, Split, Join, UndoLines, KeptLines;
    SplitBrJoin(FormatLines(lines));
  }

  // ----- When that is the comment itself -----

  lemma {:induction false} KeptChunks(chunks: seq<string>)
    ensures |Kept(chunks)| <= |Join(chunks, [])|
    ensures (forall i | 0 <= i < |chunks| :: !Contains(chunks[i])) ==> Kept(chunks) == Join(chunks, [])
    ensures (exists i | 0 <= i < |chunks| :: Contains(chunks[i])) ==> |Kept(chunks)| < |Join(chunks, [])|
  {
    if chunks != [] {
      RemoveLength(chunks[0]);
      KeptChunks(chunks[1..]);
      hide Remove, Contains;
      assert Join(chunks, []) == chunks[0] + Join(chunks[1..], []);
      if i :| 0 <= i < |chunks| && Contains(chunks[i]) {
        if i > 0 { assert chunks[1..][i - 1] == chunks[i]; }
      }
    }
  }

  lemma WordKept(word: string)
    ensures |KeptWord(word)| <= |word|
    ensures Clean(word) ==> KeptWord(word) == word
    ensures !Clean(word) ==> |KeptWord(word)| < |word|
  {
    KeptChunks(Chunks(word));
    WrapIsChunks(word, 0);
  }

  /** Joining parts that may have lost characters. */
  lemma {:induction false} JoinShrinks(whole: seq<string>, kept: seq<string>, sep: string)
    requires |whole| == |kept| && forall i | 0 <= i < |whole| :: |kept[i]| <= |whole[i]|
    ensures |Join(kept, sep)| <= |Join(whole, sep)|
    ensures (exists i | 0 <= i < |whole| :: |kept[i]| < |whole[i]|) ==> |Join(kept, sep)| < |Join(whole, sep)|
  {
    if |whole| > 1 {
      JoinShrinks(whole[1..], kept[1..], sep);
      if i :| 0 <= i < |whole| && |kept[i]| < |whole[i]| {
        if i > 0 { assert |kept[1..][i - 1]| < |whole[1..][i - 1]|; }
      }
    }
  }

  ghost predicate CleanLine(line: string) {
    forall i | 0 <= i < |Split(line, ' ')| :: Clean(Split(line, ' ')[i])
  }

  lemma LineKept(line: string)
    ensures |KeptLine(line)| <= |line|
    ensures CleanLine(line) ==> KeptLine(line) == line
    ensures !CleanLine(line) ==> |KeptLine(line)| < |line|
  {
    var words := Split(line, ' ');
    JoinSplit(line, ' ');
    forall i | 0 <= i < |words|
      ensures |KeptWord(words[i])| <= |words[i]|
      ensures Clean(words[i]) ==> KeptWord(words[i]) == words[i]
      ensures !Clean(words[i]) ==> |KeptWord(words[i])| < |words[i]|
    {
      WordKept(words[i]);
    }
    hide Split, KeptWord, Clean;
    JoinShrinks(words, KeptWords(words), " ");
    if CleanLine(line) { assert KeptWords(words) == words; }
  }

  /** Undoing the format gives the comment back exactly when no 35-character chunk of a word
      holds the text of the break marker. */
  lemma RoundTripIff(raw: string)
    ensures Undo(Format(raw)) == raw <==>
      forall i | 0 <= i < |Split(raw, '\n')| :: CleanLine(Split(raw, '\n')[i])
  {
    var lines := Split(raw, '\n');
    Undone(raw);
    JoinSplit(raw, '\n');
    forall i | 0 <= i < |lines|
      ensures |KeptLine(lines[i])| <= |lines[i]|
      ensures CleanLine(lines[i]) ==> KeptLine(lines[i]) == lines[i]
      ensures !CleanLine(lines[i]) ==> |KeptLine(lines[i])| < |lines[i]|
    {
      LineKept(lines[i]);
    }
    hide Split, KeptLine, CleanLine, Format, Undo, Join;
    JoinShrinks(lines, KeptLines(lines), "\n");
    if forall i | 0 <= i < |lines| :: CleanLine(lines[i]) { assert KeptLines(lines) == lines; }
  }

  // ----- A comment without the marker -----

  ghost predicate Inside(part: string, whole: string) {
    exists at | 0 <= at <= |whole| :: part <= whole[at..]
  }

  lemma InsideContains(part: string, whole: string)
    requires Inside(part, whole) && Contains(part)
    ensures Contains(whole)
  {
    var at :| 0 <= at <= |whole| && part <= whole[at..];
    var i :| 0 <= i <= |part| && MARK <= part[i..];
    var t := whole[at..];
    var rest := t[|part|..];
    assert t == part + rest;
    assert t[i..] == part[i..] + rest;
    assert whole[at + i..] == t[i..];
    assert (part[i..] + rest)[..8] == part[i..][..8] == MARK;
  }

  lemma {:induction false} FirstPartStarts(s: string, sep: char)
    ensures Split(s, sep)[0] <= s
  {
    if s != [] && s[0] != sep {
      var part := Split(s[1..], sep)[0];
      FirstPartStarts(s[1..], sep);
      assert Split(s, sep)[0] == [s[0]] + part;
      hide Split;
      assert s == [s[0]] + s[1..];
    }
  }

  lemma {:induction false} SplitInside(s: string, sep: char, k: nat)
    requires k < |Split(s, sep)|
    ensures Inside(Split(s, sep)[k], s)
  {
    if k == 0 {
      FirstPartStarts(s, sep);
      assert s[0..] == s;
    } else {
      var from := if s[0] == sep then k - 1 else k;
      var part := Split(s[1..], sep)[from];
      assert Split(s, sep)[k] == part;
      SplitInside(s[1..], sep, from);
      hide Split;
      var at :| 0 <= at <= |s[1..]| && part <= s[1..][at..];
      assert s[at + 1..] == s[1..][at..];
    }
  }

  lemma {:induction false} ChunkInside(word: string, k: nat)
    requires k < |Chunks(word)|
    ensures Inside(Chunks(word)[k], word)
    decreases |word|
  {
    assert word[0..] == word;
    if |word| >= WIDTH {
      if k == 0 {
        assert word[..WIDTH] <= word[0..];
      } else {
        ChunkInside(word[WIDTH..], k - 1);
        var at :| 0 <= at <= |word[WIDTH..]| && Chunks(word[WIDTH..])[k - 1] <= word[WIDTH..][at..];
        assert word[at + WIDTH..] == word[WIDTH..][at..];
      }
    }
  }

  /** In particular, every comment that does not contain the marker comes back unchanged. */
  lemma RoundTrip(raw: string)
    requires !Contains(raw)
    ensures Undo(Format(raw)) == raw
  {
    var lines := Split(raw, '\n');
    hide Contains, Inside;
    forall i | 0 <= i < |lines| ensures CleanLine(lines[i]) {
      SplitInside(raw, '\n', i);
      if Contains(lines[i]) { InsideContains(lines[i], raw); }
      var words := Split(lines[i], ' ');
      forall j | 0 <= j < |words| ensures Clean(words[j]) {
        SplitInside(lines[i], ' ', j);
        if Contains(words[j]) { InsideContains(words[j], lines[i]); }
        forall k | 0 <= k < |Chunks(words[j])| ensures !Contains(Chunks(words[j])[k]) {
          ChunkInside(words[j], k);
          if Contains(Chunks(words[j])[k]) { InsideContains(Chunks(words[j])[k], words[j]); }
        }
      }
    }
    RoundTripIff(raw);
  }

  // ----- The script's loops -----

  /** The generator expression that wraps one word. */
  method WrapWord(word: string) returns (wrapped: string)
    ensures wrapped == WrapFrom(word, 0)
  {
    wrapped := "";
    for i := 0 to |word|
      invariant WrapFrom(word, 0) == wrapped + WrapFrom(word[i..], i)
    {
      var piece := [word[i]] + if (i + 1) % WIDTH == 0 then MARK else "";
      assert word[i..][1..] == word[i + 1..];
      assert WrapFrom(word[i..], i) == piece + WrapFrom(word[i + 1..], i + 1);
      wrapped := wrapped + piece;
    }
    assert word[|word|..] == [];
  }

  method FormatWords(line: string) returns (text: string)
    ensures text == FormatLine(line)
  {
    hide HtmlEscape, WrapFrom, Split, Join;
    var parts := Split(line, ' ');
    var words: seq<string> := [];
    for k := 0 to |parts|
      invariant EscapeAll(WrapAll(parts)) == words + EscapeAll(WrapAll(parts[k..]))
    {
      assert parts[k..][1..] == parts[k + 1..];
      var wrapped := WrapWord(parts[k]);
      assert WrapAll(parts[k..])[1..] == WrapAll(parts[k + 1..]);
      words := words + [HtmlEscape(wrapped)];
    }
    assert parts[|parts|..] == [];
    assert words == EscapeAll(WrapAll(parts));
    hide EscapeAll, WrapAll;
    text := Join(words, " ");
  }

  /** `preformatted` for one raw comment. */
  method Preformat(raw: string) returns (text: string)
    ensures text == Format(raw)
  {
    hide FormatLine, Split, Join;
    var parts := Split(raw, '\n');
    var lines: seq<string> := [];
    for k := 0 to |parts|
      invariant FormatLines(parts) == lines + FormatLines(parts[k..])
    {
      assert parts[k..][1..] == parts[k + 1..];
      var line := FormatWords(parts[k]);
      lines := lines + [line];
    }
    assert parts[|parts|..] == [];
    assert lines == FormatLines(parts);
    text := Join(lines, BR);
  }
}
