/** scripts/check-windows-test-exits.py, `self_test`: what the check reports of its sample blocks,
    for every shell and every list of commands. */
module PwshSelfTest {
  import opened PwshGuards

  function Joined(body: seq<string>): string {
    if body == [] then [] else "          " + body[0] + "\n" + Joined(body[1..])
  }

  /** `block(shell, body)` */
  function SelfTestBlock(shell: string, body: seq<string>): string {
    "      - name: Fixture" + "\n" + ("        shell: " + shell + "\n" + ("        run: |" + "\n" + Joined(body)))
  }

  function Indented(body: seq<string>): seq<string> {
    if body == [] then [] else ["          " + body[0]] + Indented(body[1..])
  }

  predicate Unbroken(line: string) { forall i | 0 <= i < |line| :: !IsBreak(line[i]) }

  lemma LineOff(line: string, rest: string)
    requires Unbroken(line)
    ensures SplitLines(line + "\n" + rest) == [line] + SplitLines(rest)
  {
    FirstLine(line, '\n', rest);
    assert line + "\n" + rest == line + (['\n'] + rest);
  }

  lemma {:induction false} JoinedLines(body: seq<string>)
    requires forall i | 0 <= i < |body| :: Unbroken(body[i])
    ensures SplitLines(Joined(body)) == Indented(body)
  {
    hide SplitLines, Unbroken;
    if body == [] {
      assert SplitLines([]) == [] by { NoLines(); }
    } else {
      UnbrokenAppend("          ", body[0]);
      LineOff("          " + body[0], Joined(body[1..]));
      JoinedLines(body[1..]);
    }
  }

  lemma NoLines()
    ensures SplitLines([]) == []
  {
  }

  lemma UnbrokenAppend(a: string, b: string)
    requires (forall i | 0 <= i < |a| :: a[i] in {' ', '-', ':', '|'} || 'a' <= a[i] <= 'z' || a[i] == 'F') && Unbroken(b)
    ensures Unbroken(a + b)
  {
  }

  lemma UnbrokenLine(line: string)
    requires line == "      - name: Fixture" || line == "        run: |"
    ensures Unbroken(line)
  {
    hide IsBreak, Unbroken;
    UnbrokenAppend(line, []);
    assert line + [] == line;
  }

  lemma ShellLine(shell: string)
    requires Unbroken(shell)
    ensures Unbroken("        shell: " + shell)
  {
    hide Unbroken;
    UnbrokenAppend("        shell: ", shell);
  }

  /** Joined commands are one step: no line of theirs begins one. */
  lemma {:induction false} JoinedHasNoStart(body: seq<string>, i: nat)
    requires forall k | 0 <= k < |body| :: Unbroken(body[k])
    ensures !StepStart(Joined(body), i)
  {
    if body != [] {
      var line, rest := "          " + body[0], Joined(body[1..]);
      assert Joined(body) == line + "\n" + rest;
      UnbrokenAppend("          ", body[0]);
      JoinedHasNoStart(body[1..], if i > |line| then i - |line| - 1 else 0);
      hide Joined;
      assert line[6] == ' ';
      LineHasNoStart(line, rest, i);
    }
  }

  lemma LineHasNoStart(line: string, rest: string, i: nat)
    requires Unbroken(line) && (i == 0 ==> |line| > 6 && line[6] == ' ')
    requires i > |line| ==> !StepStart(rest, i - |line| - 1)
    ensures !StepStart(line + "\n" + rest, i)
  {
    var s := line + "\n" + rest;
    if i == 0 {
      assert s[6] == ' ' && STEP[6] == '-';
    } else if i <= |line| {
      assert s[i - 1] == line[i - 1];
    } else if i < |s| {
      assert s[i..] == rest[i - |line| - 1..];
      assert i > |line| + 1 ==> s[i - 1] == rest[i - |line| - 2];
    }
  }

  lemma SelfTestLines(shell: string, body: seq<string>)
    requires Unbroken(shell) && forall i | 0 <= i < |body| :: Unbroken(body[i])
    ensures SplitLines(SelfTestBlock(shell, body)) ==
            ["      - name: Fixture", "        shell: " + shell, "        run: |"] + Indented(body)
  {
    hide IsBreak, SplitLines, Unbroken, Joined, Indented;
    var first, second, third := "      - name: Fixture", "        shell: " + shell, "        run: |";
    ShellLine(shell);
    UnbrokenLine(first);
    UnbrokenLine(third);
    JoinedLines(body);
    ThreeLines(first, second, third, Joined(body));
  }

  lemma ThreeLines(a: string, b: string, c: string, rest: string)
    requires Unbroken(a) && Unbroken(b) && Unbroken(c)
    ensures SplitLines(a + "\n" + (b + "\n" + (c + "\n" + rest))) == [a, b, c] + SplitLines(rest)
  {
    hide SplitLines, Unbroken;
    LineOff(c, rest);
    LineOff(b, c + "\n" + rest);
    LineOff(a, b + "\n" + (c + "\n" + rest));
  }

  lemma SelfTestIsOneStep(shell: string, body: seq<string>)
    requires Unbroken(shell) && forall i | 0 <= i < |body| :: Unbroken(body[i])
    ensures var source := SelfTestBlock(shell, body); source != [] && Pieces(source) == [source]
  {
    var source := SelfTestBlock(shell, body);
    forall i: nat | i > 0 ensures !StepStart(source, i) { SelfTestHasNoStart(shell, body, i); }
    hide StepStart, Pieces, SelfTestBlock;
    var next := FirstPiece(source, 0);
    assert source[0..] == source && source[0..|source|] == source;
  }

  lemma SelfTestHasNoStart(shell: string, body: seq<string>, i: nat)
    requires Unbroken(shell) && (forall k | 0 <= k < |body| :: Unbroken(body[k])) && i > 0
    ensures !StepStart(SelfTestBlock(shell, body), i)
  {
    var first, second, third := "      - name: Fixture", "        shell: " + shell, "        run: |";
    ShellLine(shell);
    var run := third + "\n" + Joined(body);
    forall j: nat ensures !StepStart(run, j) {
      JoinedHasNoStart(body, if j > |third| then j - |third| - 1 else 0);
      LineHasNoStart(third, Joined(body), j);
    }
    forall j: nat ensures !StepStart(second + "\n" + run, j) {
      assert second[6] == ' ';
      LineHasNoStart(second, run, j);
    }
    LineHasNoStart(first, second + "\n" + run, i);
  }

  /** Lines of a body are neither the shell line nor a run line. */
  lemma {:induction false} IndentedIsBody(body: seq<string>)
    ensures Body(Indented(body)) == Indented(body) && MissingInBlocks(Indented(body)) == []
    ensures "        shell: pwsh" !in Indented(body)
  {
    hide Unguarded, Commands;
    if body != [] {
      var line := "          " + body[0];
      assert line[8] == ' ' && SHELL[8] == 's' && RUN[8] == 'r';
      assert INDENT <= line;
      assert !IsRun(line);
      IndentedIsBody(body[1..]);
      assert Indented(body)[1..] == Indented(body[1..]);
    }
  }

  /** The block of the self-test, for any shell and any commands of one line each, yields exactly
      the findings of its commands if the shell is pwsh, and none otherwise. */
  lemma SelfTest(shell: string, body: seq<string>)
    requires Unbroken(shell) && forall i | 0 <= i < |body| :: Unbroken(body[i])
    ensures MissingInSteps(Split(SelfTestBlock(shell, body))) ==
            if shell == "pwsh" then Unguarded(Commands(Indented(body))) else []
  {
    hide SelfTestBlock, Split, Pieces, SplitLines, Unbroken, MissingInSteps, MissingInBlocks, Unguarded, Commands, Indented;
    var source := SelfTestBlock(shell, body);
    SelfTestIsOneStep(shell, body);
    SelfTestLines(shell, body);
    SplitIsPieces(source);
    OneStep(source);
    SelfTestStep(shell, body, SplitLines(source));
  }

  lemma OneStep(step: string)
    ensures MissingInSteps([step]) == MissingInStep(step)
  {
    hide MissingInStep;
    assert [step][1..] == [];
  }

  lemma SelfTestStep(shell: string, body: seq<string>, lines: seq<string>)
    requires lines == ["      - name: Fixture", "        shell: " + shell, "        run: |"] + Indented(body)
    ensures "        shell: pwsh" in lines <==> shell == "pwsh"
    ensures MissingInBlocks(lines) == Unguarded(Commands(Indented(body)))
  {
    hide Unguarded, Commands, Body, Indented, IsRun, MissingInBlocks;
    var first, second, third := "      - name: Fixture", "        shell: " + shell, "        run: |";
    IndentedIsBody(body);
    LinesDiffer(first, second, third, shell);
    FourParts(first, second, third, Indented(body));
  }

  lemma FourParts(first: string, second: string, third: string, rest: seq<string>)
    requires !IsRun(first) && !IsRun(second) && IsRun(third) && first != SHELL && third != SHELL && SHELL !in rest
    ensures var lines := [first, second, third] + rest;
      && (SHELL in lines <==> second == SHELL)
      && MissingInBlocks(lines) == Unguarded(Commands(Body(rest))) + MissingInBlocks(rest)
  {
    hide Unguarded, Commands, Body, IsRun, MissingInBlocks;
    MissingInFirst(third, rest);
    MissingInFirst(second, [third] + rest);
    MissingInFirst(first, [second] + ([third] + rest));
    assert [first, second, third] + rest == [first] + ([second] + ([third] + rest));
    assert forall line :: line in [first, second, third] + rest <==> line == first || line == second || line == third || line in rest;
  }

  lemma LinesDiffer(first: string, second: string, third: string, shell: string)
    requires first == "      - name: Fixture" && second == "        shell: " + shell && third == "        run: |"
    ensures !IsRun(first) && !IsRun(second) && IsRun(third)
    ensures first != SHELL && third != SHELL && (second == SHELL <==> shell == "pwsh")
  {
    assert first[8] == 'n' && second[8] == 's' && third[8] == 'r';
    assert SHELL[8] == 's' && RUN[8] == 'r';
    assert SHELL == "        shell: " + "pwsh";
    assert second[15..] == shell && SHELL[15..] == "pwsh";
  }

  lemma MissingInFirst(line: string, rest: seq<string>)
    ensures MissingInBlocks([line] + rest) == (if IsRun(line) then Unguarded(Commands(Body(rest))) else []) + MissingInBlocks(rest)
  {
    hide Unguarded, Commands, Body, IsRun;
    assert ([line] + rest)[1..] == rest;
  }
}
