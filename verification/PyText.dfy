/** Character classes and splitting as Python's str defines them. */
module PyText {
  /** str.isspace for one character; also the regular expression's \s. */
  predicate IsSpace(c: char) {
    '\t' <= c <= '\r' || '\U{1c}' <= c <= ' ' || c in {'\U{85}', '\U{a0}', '\U{1680}'} ||
    '\U{2000}' <= c <= '\U{200a}' || c in {'\U{2028}', '\U{2029}', '\U{202f}', '\U{205f}', '\U{3000}'}
  }

  /** str.split() with no argument: the maximal runs of non-space characters. */
  function Words(s: string): seq<string>
    decreases |s|
  {
    if s == [] then []
    else if IsSpace(s[0]) then Words(s[1..])
    else
      var n := WordLength(s);
      [s[..n]] + Words(s[n..])
  }

  function WordLength(s: string): (n: nat)
    ensures n <= |s| && (s != [] && !IsSpace(s[0]) ==> n > 0)
  {
    if s == [] || IsSpace(s[0]) then 0 else 1 + WordLength(s[1..])
  }

  /** `w` stands in `s` between `a` and `b` as a whole word. */
  ghost predicate WordAt(s: string, a: string, w: string, b: string) {
    && s == a + (w + b) && w != [] && (forall i | 0 <= i < |w| :: !IsSpace(w[i]))
    && (a == [] || IsSpace(a[|a| - 1])) && (b == [] || IsSpace(b[0]))
  }

  lemma {:induction false} WordLengthOf(w: string, b: string)
    requires (forall i | 0 <= i < |w| :: !IsSpace(w[i])) && (b == [] || IsSpace(b[0]))
    ensures WordLength(w + b) == |w|
  {
    hide IsSpace;
    if w == [] {
      assert w + b == b;
    } else {
      assert (w + b)[1..] == w[1..] + b;
      WordLengthOf(w[1..], b);
    }
  }

  lemma {:induction false} WordLengthEnds(s: string)
    ensures (forall i | 0 <= i < WordLength(s) :: !IsSpace(s[i])) && (WordLength(s) < |s| ==> IsSpace(s[WordLength(s)]))
  {
    hide IsSpace;
    if s != [] && !IsSpace(s[0]) { WordLengthEnds(s[1..]); }
  }

  /** str.split() gives exactly the runs of non-space characters with white space, or an end of
      the text, on both sides. */
  lemma WordsIff(s: string, w: string)
    ensures w in Words(s) <==> exists a, b :: WordAt(s, a, w, b)
  {
    hide Words, WordAt;
    if w in Words(s) { var a, b := WordIsThere(s, w); }
    if a, b :| WordAt(s, a, w, b) { WordIsFound(s, a, w, b); }
  }

  lemma {:induction false} WordIsThere(s: string, w: string) returns (a: string, b: string)
    requires w in Words(s)
    ensures WordAt(s, a, w, b)
    decreases |s|
  {
    hide IsSpace, WordLength, WordAt;
    if IsSpace(s[0]) {
      a, b := WordIsThere(s[1..], w);
      assert s == [s[0]] + s[1..];
      WordLater(s[1..], [s[0]], a, w, b);
      a := [s[0]] + a;
    } else {
      var n := WordLength(s);
      WordLengthEnds(s);
      if w == s[..n] {
        a, b := [], s[n..];
        FirstWord(s, w, b);
      } else {
        a, b := WordIsThere(s[n..], w);
        assert s == s[..n] + s[n..];
        WordLater(s[n..], s[..n], a, w, b);
        a := s[..n] + a;
      }
    }
  }

  lemma FirstWord(s: string, w: string, b: string)
    requires s == w + b && w != [] && (forall i | 0 <= i < |w| :: !IsSpace(s[i])) && (b == [] || IsSpace(b[0]))
    ensures WordAt(s, [], w, b)
  {
    hide IsSpace;
    assert forall i | 0 <= i < |w| :: w[i] == s[i];
    assert s == [] + (w + b);
  }

  lemma WordLater(s: string, front: string, a: string, w: string, b: string)
    requires WordAt(s, a, w, b) && front != [] && (IsSpace(front[|front| - 1]) || IsSpace(s[0]))
    ensures WordAt(front + s, front + a, w, b)
  {
    hide IsSpace;
    assert (w + b)[0] == w[0];
    assert a == [] ==> s[0] == w[0];
    assert front + s == front + a + (w + b);
  }

  lemma {:induction false} WordIsFound(s: string, a: string, w: string, b: string)
    requires WordAt(s, a, w, b)
    ensures w in Words(s)
    decreases |s|
  {
    hide IsSpace;
    if IsSpace(s[0]) {
      assert (w + b)[0] == w[0];
      assert s[1..] == a[1..] + (w + b);
      WordIsFound(s[1..], a[1..], w, b);
    } else {
      var n := WordLength(s);
      WordLengthEnds(s);
      if a == [] {
        assert s == w + b;
        WordLengthOf(w, b);
        assert s[..n] == w;
      } else {
        assert s[|a| - 1] == a[|a| - 1];
        assert n < |a|;
        hide WordLength;
        assert s[n..] == a[n..] + (w + b);
        WordIsFound(s[n..], a[n..], w, b);
      }
    }
  }
}
