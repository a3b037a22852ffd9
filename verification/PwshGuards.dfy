/** scripts/check-windows-test-exits.py: the static check that every native command of a pwsh
    step, except the last, is followed at once by an exit guard. */
module PwshGuards {
  import opened PyText

  const GUARD := "if ($LASTEXITCODE -ne 0)" + " { exit $LASTEXITCODE }"
  const STEP := "      - "
  const SHELL := "        shell: pwsh"
  const RUN := "        run: |"
  const INDENT := "          "
  const NATIVES: seq<string> := ["npm", "npx", "cargo", "rustup", "node", "python", "python3", "gh", "git"]

  // ----- Python's text functions -----

  /** Where str.splitlines ends a line. */
  predicate IsBreak(c: char) {
    '\n' <= c <= '\r' || '\U{1c}' <= c <= '\U{1e}' || c in {'\U{85}', '\U{2028}', '\U{2029}'}
  }

  function LineLength(s: string): (n: nat)
    ensures n <= |s|
    ensures n < |s| ==> IsBreak(s[n])
  {
    if s == [] || IsBreak(s[0]) then 0 else 1 + LineLength(s[1..])
  }

  /** str.splitlines: CR LF is one break, and a final break starts no line. */
  function SplitLines(s: string): seq<string>
    decreases |s|
  {
    if s == [] then []
    else
      var n := LineLength(s);
      if n == |s| then [s]
      else [s[..n]] + SplitLines(if "\r\n" <= s[n..] then s[n + 2..] else s[n + 1..])
  }

  function LStrip(s: string): string {
    if s == [] || !IsSpace(s[0]) then s else LStrip(s[1..])
  }

  function RStrip(s: string): string {
    if s == [] || !IsSpace(s[|s| - 1]) then s else RStrip(s[..|s| - 1])
  }

  function Strip(s: string): string { RStrip(LStrip(s)) }

  // ----- Splitting the source into steps -----

  /** The length of the first piece: up to the next line that starts a step. */
  function PieceLength(s: string, from: nat): (n: nat)
    requires from <= |s|
    ensures from <= n <= |s|
    decreases |s| - from
  {
    if from == |s| then from
    else if from > 0 && s[from - 1] == '\n' && STEP <= s[from..] then from
    else PieceLength(s, from + 1)
  }

  function Pieces(s: string): seq<string>
    decreases |s|
  {
    if s == [] then []
    else
      var n := PieceLength(s, 1);
      [s[..n]] + Pieces(s[n..])
  }

  /** re.split at every line start that begins a step; a match at the very start leaves an
      empty first piece. */
  function Split(source: string): seq<string> {
    (if source == [] || STEP <= source then [[]] else []) + Pieces(source)
  }

  // ----- Where the steps are -----

  /** Position `i` is the start of a line that begins a step: six spaces, a dash and a space. */
  predicate StepStart(source: string, i: nat) {
    i < |source| && (i == 0 || source[i - 1] == '\n') && "      - " <= source[i..]
  }

  lemma {:induction false} PieceEnds(s: string, from: nat)
    requires 0 < from <= |s|
    ensures forall i: nat | from <= i < PieceLength(s, from) :: !StepStart(s, i)
    ensures PieceLength(s, from) < |s| ==> StepStart(s, PieceLength(s, from))
    decreases |s| - from
  {
    if from < |s| && !(s[from - 1] == '\n' && STEP <= s[from..]) { PieceEnds(s, from + 1); }
  }

  lemma StartInPiece(source: string, from: nat, i: nat)
    requires from < i <= |source|
    ensures StepStart(source, i) <==> StepStart(source[from..], i - from)
  {
    assert source[from..][i - from..] == source[i..];
  }

  /** The pieces from a position on: cut at every later step start. */
  lemma {:induction false} PiecesCuts(source: string, from: nat) returns (cuts: seq<nat>)
    requires from < |source|
    ensures CutAt(source, from, cuts, Pieces(source[from..]))
    decreases |source| - from
  {
    hide StepStart, CutAt, Pieces;
    var next := FirstPiece(source, from);
    if next == |source| {
      cuts := [];
      CutNone(source, from);
    } else {
      var more := PiecesCuts(source, next);
      cuts := [next] + more;
      CutFirst(source, from, next, more, Pieces(source[next..]));
    }
  }

  lemma FirstPiece(source: string, from: nat) returns (next: nat)
    requires from < |source|
    ensures from < next <= |source|
    ensures Pieces(source[from..]) == [source[from..next]] + if next == |source| then [] else Pieces(source[next..])
    ensures forall i: nat | from < i < next :: !StepStart(source, i)
    ensures next < |source| ==> StepStart(source, next)
  {
    var rest := source[from..];
    var n := PieceLength(rest, 1);
    next := from + n;
    PieceEnds(rest, 1);
    hide PieceLength, StepStart;
    forall i: nat | from < i < next ensures !StepStart(source, i) { StartInPiece(source, from, i); }
    if next < |source| { StartInPiece(source, from, next); }
    assert source[from..next] == rest[..n] && rest[n..] == source[next..];
    assert next == |source| ==> source[next..] == [];
  }

  lemma CutNone(source: string, from: nat)
    requires from < |source| && forall i: nat | from < i < |source| :: !StepStart(source, i)
    ensures CutAt(source, from, [], [source[from..|source|]] + [])
  {
    StartsInside(source);
    hide StepStart;
  }

  /** `pieces` are the parts of `source` from `from` on, cut exactly at the later step starts. */
  ghost predicate CutAt(source: string, from: nat, cuts: seq<nat>, pieces: seq<string>) {
    && (forall i: nat :: i in cuts <==> from < i && StepStart(source, i))
    && (forall j, k | 0 <= j < k < |cuts| :: cuts[j] < cuts[k])
    && |pieces| == |cuts| + 1
    && forall k: nat | k <= |cuts| :: PieceIs(source, from, cuts, pieces, k)
  }

  /** Piece `k` lasts from the cut before it to the next. */
  predicate PieceIs(source: string, from: nat, cuts: seq<nat>, pieces: seq<string>, k: nat) {
    k < |pieces| && k <= |cuts| &&
    var a, b := if k == 0 then from else cuts[k - 1], if k == |cuts| then |source| else cuts[k];
    a <= b <= |source| && pieces[k] == source[a..b]
  }

  lemma CutFirst(source: string, from: nat, next: nat, more: seq<nat>, rest: seq<string>)
    requires from < next < |source| && StepStart(source, next) && CutAt(source, next, more, rest)
    requires forall i: nat | from < i < next :: !StepStart(source, i)
    ensures CutAt(source, from, [next] + more, [source[from..next]] + rest)
  {
    CutsAscend(source, next, more, rest);
    CutsAre(source, from, next, more, rest);
    forall k: nat | k <= |more| + 1 ensures PieceIs(source, from, [next] + more, [source[from..next]] + rest, k) {
      CutPiece(source, from, next, more, rest, k);
    }
    assert |rest| == |more| + 1;
    hide StepStart, PieceIs;
  }

  lemma CutsAre(source: string, from: nat, next: nat, more: seq<nat>, rest: seq<string>)
    requires from < next < |source| && StepStart(source, next) && CutAt(source, next, more, rest)
    requires forall i: nat | from < i < next :: !StepStart(source, i)
    ensures forall i: nat :: i in [next] + more <==> from < i && StepStart(source, i)
  {
    hide StepStart;
    forall i: nat ensures i in [next] + more <==> from < i && StepStart(source, i) {
      assert i in [next] + more <==> i == next || i in more;
    }
  }

  lemma CutPiece(source: string, from: nat, next: nat, more: seq<nat>, rest: seq<string>, k: nat)
    requires from < next < |source| && CutAt(source, next, more, rest) && k <= |more| + 1
    ensures PieceIs(source, from, [next] + more, [source[from..next]] + rest, k)
  {
    hide StepStart;
    var cuts, pieces := [next] + more, [source[from..next]] + rest;
    if k > 0 {
      assert PieceIs(source, next, more, rest, k - 1);
      hide CutAt;
      assert pieces[k] == rest[k - 1] && cuts[k - 1] == (if k == 1 then next else more[k - 2]);
      assert k < |cuts| ==> cuts[k] == more[k - 1];
    }
  }

  lemma CutsAscend(source: string, next: nat, more: seq<nat>, rest: seq<string>)
    requires CutAt(source, next, more, rest)
    ensures var cuts := [next] + more; forall j, k | 0 <= j < k < |cuts| :: cuts[j] < cuts[k]
  {
    hide StepStart;
    var cuts := [next] + more;
    forall j, k | 0 <= j < k < |cuts| ensures cuts[j] < cuts[k] {
      assert more[k - 1] in more && cuts[k] == more[k - 1];
      if j > 0 { assert cuts[j] == more[j - 1]; }
    }
  }

  /** A step: from one step start, or the start of the file, to the next, or to its end. */
  ghost predicate IsStep(source: string, a: nat, b: nat) {
    && a < b <= |source|
    && (a == 0 || StepStart(source, a)) && (b == |source| || StepStart(source, b))
    && forall i: nat | a < i < b :: !StepStart(source, i)
  }

  /** The checker's pieces, in order: the source cut exactly at its step starts, with an empty
      piece in front when there is one at its very start. */
  lemma SplitCuts(source: string) returns (cuts: seq<nat>)
    requires source != []
    ensures CutAt(source, 0, cuts, Split(source)[if StepStart(source, 0) then 1 else 0..])
    ensures StepStart(source, 0) ==> Split(source)[0] == []
  {
    cuts := PiecesCuts(source, 0);
    assert source[0..] == source;
    hide Pieces;
  }

  /** So a piece is a step of the source, or empty in front of the first. */
  lemma SplitIff(source: string, step: string)
    ensures step in Split(source) <==>
      (step == [] && (source == [] || StepStart(source, 0))) || exists a: nat, b: nat :: IsStep(source, a, b) && step == source[a..b]
  {
    assert source[0..] == source;
    if source != [] {
      var cuts := PiecesCuts(source, 0);
      assert StepStart(source, 0) <==> STEP <= source;
      hide StepStart, Pieces;
      var pieces := Pieces(source);
      if step in pieces {
        var k :| 0 <= k < |pieces| && pieces[k] == step;
        CutIsStep(source, cuts, pieces, k);
      }
      if a: nat, b: nat :| IsStep(source, a, b) && step == source[a..b] {
        var k := StepIsCut(source, cuts, pieces, a, b);
      }
      assert step in Split(source) <==> step in pieces || (step == [] && StepStart(source, 0));
    }
  }

  lemma CutIsStep(source: string, cuts: seq<nat>, pieces: seq<string>, k: nat)
    requires source != [] && CutAt(source, 0, cuts, pieces) && k < |pieces|
    ensures exists a: nat, b: nat :: IsStep(source, a, b) && pieces[k] == source[a..b]
  {
    hide StepStart;
    var a, b := if k == 0 then 0 else cuts[k - 1], if k == |cuts| then |source| else cuts[k];
    PieceAt(source, 0, cuts, pieces, k);
    assert k > 0 ==> cuts[k - 1] in cuts;
    assert k < |cuts| ==> cuts[k] in cuts;
    StartsInside(source);
    forall i: nat | a < i < b ensures !StepStart(source, i) {
      if StepStart(source, i) {
        var j :| 0 <= j < |cuts| && cuts[j] == i;
        assert false;
      }
    }
    assert IsStep(source, a, b);
  }

  lemma PieceAt(source: string, from: nat, cuts: seq<nat>, pieces: seq<string>, k: nat)
    requires CutAt(source, from, cuts, pieces) && k < |pieces|
    ensures PieceIs(source, from, cuts, pieces, k)
    ensures var a, b := if k == 0 then from else cuts[k - 1], if k == |cuts| then |source| else cuts[k];
      a <= b <= |source| && pieces[k] == source[a..b]
  {
    hide StepStart;
  }

  lemma StartsInside(source: string)
    ensures forall i: nat | StepStart(source, i) :: i < |source|
  {
  }

  lemma StepIsCut(source: string, cuts: seq<nat>, pieces: seq<string>, a: nat, b: nat) returns (k: nat)
    requires CutAt(source, 0, cuts, pieces) && IsStep(source, a, b)
    ensures k < |pieces| && pieces[k] == source[a..b]
  {
    hide StepStart;
    StartsInside(source);
    k := 0;
    if a > 0 {
      assert a in cuts;
      var j :| 0 <= j < |cuts| && cuts[j] == a;
      k := j + 1;
    }
    var end := if k == |cuts| then |source| else cuts[k];
    assert k < |cuts| ==> cuts[k] in cuts;
    assert a < end;
    assert end < |source| ==> StepStart(source, end);
    if b < |source| {
      assert b in cuts;
      var j :| 0 <= j < |cuts| && cuts[j] == b;
      assert j >= k;
    }
    assert b == end;
    PieceAt(source, 0, cuts, pieces, k);
  }

  // ----- The check -----

  predicate IsNative(command: string) {
    exists i | 0 <= i < |NATIVES| ::
      NATIVES[i] <= command && (|command| == |NATIVES[i]| || IsSpace(command[|NATIVES[i]|]))
  }

  predicate IsRun(line: string) { line == RUN || line == RUN + "-" || line == RUN + "+" }

  /** The lines the checker takes as the block's body. */
  function Body(lines: seq<string>): seq<string> {
    if lines == [] || (lines[0] != [] && !(INDENT <= lines[0])) then []
    else [lines[0]] + Body(lines[1..])
  }

  predicate IsCommand(line: string) { Strip(line) != [] && Strip(line)[0] != '#' }

  function Commands(body: seq<string>): seq<string> {
    if body == [] then []
    else (if IsCommand(body[0]) then [Strip(body[0])] else []) + Commands(body[1..])
  }

  predicate HasNative(commands: seq<string>) {
    exists i | 0 <= i < |commands| :: IsNative(commands[i])
  }

  /** Native commands, except the last one, whose next command is not the guard. */
  function Unguarded(commands: seq<string>): seq<string> {
    if commands == [] then []
    else
      var rest := commands[1..];
      (if IsNative(commands[0]) && HasNative(rest) && rest[0] != GUARD then [commands[0]] else []) + Unguarded(rest)
  }

  function MissingInBlocks(lines: seq<string>): seq<string> {
    if lines == [] then []
    else (if IsRun(lines[0]) then Unguarded(Commands(Body(lines[1..]))) else []) + MissingInBlocks(lines[1..])
  }

  function MissingInStep(step: string): seq<string> {
    var lines := SplitLines(step);
    if SHELL in lines then MissingInBlocks(lines) else []
  }

  function MissingInSteps(steps: seq<string>): seq<string> {
    if steps == [] then [] else MissingInStep(steps[0]) + MissingInSteps(steps[1..])
  }

  // ----- What the checker's terms mean -----

  predicate CallsNative(command: string, name: string, rest: string) {
    && command == name + rest && (rest == [] || IsSpace(rest[0]))
    && name in {"npm", "npx", "cargo", "rustup", "node", "python", "python3", "gh", "git"}
  }

  /** The start of a native command: one of nine names, then white space or nothing. */
  lemma NativeIff(command: string)
    ensures IsNative(command) <==> exists name, rest :: CallsNative(command, name, rest)
  {
    hide IsSpace;
    if IsNative(command) {
      var i :| 0 <= i < |NATIVES| && NATIVES[i] <= command &&
               (|command| == |NATIVES[i]| || IsSpace(command[|NATIVES[i]|]));
      assert command == NATIVES[i] + command[|NATIVES[i]|..];
      NameInSet(i);
      assert CallsNative(command, NATIVES[i], command[|NATIVES[i]|..]);
    }
    if name, rest :| CallsNative(command, name, rest) {
      var i := IndexOfName(name);
      if rest != [] { assert command[|name|] == rest[0]; }
    }
  }

  lemma NameInSet(i: nat)
    requires i < |NATIVES|
    ensures NATIVES[i] in {"npm", "npx", "cargo", "rustup", "node", "python", "python3", "gh", "git"}
  {
    assert i == 0 || i == 1 || i == 2 || i == 3 || i == 4 || i == 5 || i == 6 || i == 7 || i == 8;
  }

  lemma IndexOfName(name: string) returns (i: nat)
    requires name in {"npm", "npx", "cargo", "rustup", "node", "python", "python3", "gh", "git"}
    ensures i < |NATIVES| && NATIVES[i] == name
  {
    i := if name == "npm" then 0 else if name == "npx" then 1 else if name == "cargo" then 2
         else if name == "rustup" then 3 else if name == "node" then 4 else if name == "python" then 5
         else if name == "python3" then 6 else if name == "gh" then 7 else 8;
  }

  predicate AllSpaces(s: string) { forall i | 0 <= i < |s| :: IsSpace(s[i]) }

  lemma {:induction false} RStripSpaces(word: string, spaces: string)
    requires AllSpaces(spaces) && (word == [] || !IsSpace(word[|word| - 1]))
    ensures RStrip(word + spaces) == word
  {
    if spaces == [] {
      assert word + spaces == word;
    } else {
      assert (word + spaces)[..|word + spaces| - 1] == word + spaces[..|spaces| - 1];
      RStripSpaces(word, spaces[..|spaces| - 1]);
    }
  }

  /** What one line of a body contributes: its text without the white space around it, unless
      that is empty or a comment. */
  lemma CommandOfLine(before: string, word: string, behind: string)
    requires AllSpaces(before) && AllSpaces(behind)
    requires word == [] || (!IsSpace(word[0]) && !IsSpace(word[|word| - 1]))
    ensures Commands([before + (word + behind)]) == if word == [] || word[0] == '#' then [] else [word]
  {
    var line := before + (word + behind);
    assert [line][1..] == [];
    if word == [] {
      StripBlank(line);
    } else {
      LStripSpaces(before, word + behind);
      RStripSpaces(word, behind);
    }
  }

  /** Command `i` is native, some later one is too, and the next is no guard. */
  ghost predicate IsFinding(commands: seq<string>, i: nat) {
    && i + 1 < |commands| && IsNative(commands[i]) && (exists j | i < j < |commands| :: IsNative(commands[j]))
    && commands[i + 1] != "if ($LASTEXITCODE -ne 0)" + " { exit $LASTEXITCODE }"
  }

  lemma FindingLater(commands: seq<string>, i: nat)
    requires commands != [] && i > 0
    ensures IsFinding(commands, i) <==> IsFinding(commands[1..], i - 1)
    ensures IsFinding(commands, 0) <==> IsNative(commands[0]) && HasNative(commands[1..]) && commands[1..][0] != GUARD
  {
    hide IsNative;
    var rest := commands[1..];
    assert forall j | 0 < j < |commands| :: commands[j] == rest[j - 1];
    assert forall j | 0 <= j < |rest| :: rest[j] == commands[j + 1];
  }

  /** Every number plus one. */
  function Shifted(at: seq<nat>): (r: seq<nat>)
    ensures |r| == |at| && forall k | 0 <= k < |at| :: r[k] == at[k] + 1
    ensures forall i: nat :: i in r <==> i > 0 && i - 1 in at
  {
    var r := seq(|at|, k requires 0 <= k < |at| => at[k] + 1);
    assert forall i: nat | i > 0 && i - 1 in at :: i in r by {
      forall i: nat | i > 0 && i - 1 in at ensures i in r {
        var k :| 0 <= k < |at| && at[k] == i - 1;
        assert r[k] == i;
      }
    }
    r
  }

  lemma ShiftedFindings(commands: seq<string>, more: seq<nat>)
    requires commands != [] && forall i: nat :: i in more <==> IsFinding(commands[1..], i)
    ensures forall i: nat :: i in Shifted(more) <==> i > 0 && IsFinding(commands, i)
  {
    hide IsFinding;
    forall i: nat | i > 0 ensures IsFinding(commands, i) <==> IsFinding(commands[1..], i - 1) { FindingLater(commands, i); }
  }

  /** The findings are those commands, in order. */
  lemma {:induction false} FindingsAre(commands: seq<string>) returns (at: seq<nat>)
    ensures forall j, k | 0 <= j < k < |at| :: at[j] < at[k]
    ensures forall i: nat :: i in at <==> IsFinding(commands, i)
    ensures |Unguarded(commands)| == |at|
    ensures forall k | 0 <= k < |at| :: at[k] < |commands| && Unguarded(commands)[k] == commands[at[k]]
  {
    hide IsNative, IsFinding, HasNative, Shifted;
    if commands == [] {
      at := [];
      NoFinding(commands);
    } else {
      var more := FindingsAre(commands[1..]);
      ShiftedFindings(commands, more);
      UnguardedFirst(commands);
      hide Unguarded;
      at := FindingsGrow(commands, more);
    }
  }

  lemma UnguardedFirst(commands: seq<string>)
    requires commands != []
    ensures Unguarded(commands) == (if IsFinding(commands, 0) then [commands[0]] else []) + Unguarded(commands[1..])
  {
    FindingLater(commands, 1);
    hide IsNative, IsFinding, HasNative;
  }

  lemma FindingsGrow(commands: seq<string>, more: seq<nat>) returns (at: seq<nat>)
    requires commands != [] && (forall j, k | 0 <= j < k < |more| :: more[j] < more[k])
    requires forall i: nat :: i in Shifted(more) <==> i > 0 && IsFinding(commands, i)
    requires |Unguarded(commands[1..])| == |more|
    requires forall k | 0 <= k < |more| :: more[k] < |commands[1..]| && Unguarded(commands[1..])[k] == commands[1..][more[k]]
    requires Unguarded(commands) == (if IsFinding(commands, 0) then [commands[0]] else []) + Unguarded(commands[1..])
    ensures forall j, k | 0 <= j < k < |at| :: at[j] < at[k]
    ensures forall i: nat :: i in at <==> IsFinding(commands, i)
    ensures |Unguarded(commands)| == |at|
    ensures forall k | 0 <= k < |at| :: at[k] < |commands| && Unguarded(commands)[k] == commands[at[k]]
  {
    hide IsFinding, Shifted, Unguarded;
    var later := Shifted(more);
    assert forall k | 0 <= k < |later| :: commands[later[k]] == commands[1..][more[k]];
    at := if IsFinding(commands, 0) then [0] + later else later;
  }

  lemma NoFinding(commands: seq<string>)
    requires commands == []
    ensures forall i: nat :: !IsFinding(commands, i)
  {
  }

  // ----- What the guards are for -----

  /** What a pwsh step exits with: a native command sets LASTEXITCODE to its code, a guard exits
      on a nonzero one, any other command leaves it alone, and the footer returns it. */
  function Exit(commands: seq<string>, codes: seq<int>, last: int): int
    requires |codes| == |commands|
  {
    if commands == [] then last
    else if commands[0] == GUARD then if last != 0 then last else Exit(commands[1..], codes[1..], last)
    else Exit(commands[1..], codes[1..], if IsNative(commands[0]) then codes[0] else last)
  }

  /** The code of the first native command that fails, or 0. */
  function FirstFailure(commands: seq<string>, codes: seq<int>): int
    requires |codes| == |commands|
  {
    if commands == [] then 0
    else if IsNative(commands[0]) && codes[0] != 0 then codes[0]
    else FirstFailure(commands[1..], codes[1..])
  }

  /** Whatever the codes, the step exits with the first failure. */
  ghost predicate Faithful(commands: seq<string>) {
    forall codes: seq<int> | |codes| == |commands| :: Exit(commands, codes, 0) == FirstFailure(commands, codes)
  }

  /** A guard stands somewhere between any two native commands; `armed` when one is pending. */
  predicate GuardedBetween(commands: seq<string>, armed: bool) {
    commands == [] ||
    if commands[0] == GUARD then GuardedBetween(commands[1..], false)
    else if IsNative(commands[0]) then !armed && GuardedBetween(commands[1..], true)
    else GuardedBetween(commands[1..], armed)
  }

  lemma GuardIsNotNative()
    ensures !IsNative(GUARD)
  {
    forall i | 0 <= i < |NATIVES| ensures !(NATIVES[i] <= GUARD) {
      assert i == 0 || i == 1 || i == 2 || i == 3 || i == 4 || i == 5 || i == 6 || i == 7 || i == 8;
      assert GUARD[0] == 'i' && NATIVES[i][0] != 'i';
    }
  }

  lemma {:induction false} GuardedExits(commands: seq<string>, codes: seq<int>, last: int, armed: bool)
    requires |codes| == |commands| && GuardedBetween(commands, armed) && (last != 0 ==> armed)
    ensures Exit(commands, codes, last) == if last != 0 then last else FirstFailure(commands, codes)
  {
    GuardIsNotNative();
    if commands != [] {
      var c := commands[0];
      if c == GUARD {
        if last == 0 { GuardedExits(commands[1..], codes[1..], 0, false); }
      } else if IsNative(c) {
        GuardedExits(commands[1..], codes[1..], codes[0], true);
      } else {
        GuardedExits(commands[1..], codes[1..], last, armed);
      }
    }
  }

  function Zeros(n: nat): (z: seq<int>)
    ensures |z| == n
  {
    if n == 0 then [] else [0] + Zeros(n - 1)
  }

  lemma {:induction false} ZerosExit(commands: seq<string>)
    ensures Exit(commands, Zeros(|commands|), 0) == 0
  {
    if commands != [] {
      assert Zeros(|commands|)[1..] == Zeros(|commands| - 1);
      ZerosExit(commands[1..]);
    }
  }

  /** Without a guard between two native commands, some failure is lost. */
  lemma {:induction false} LostFailure(commands: seq<string>, armed: bool) returns (codes: seq<int>, last: int)
    requires !GuardedBetween(commands, armed)
    ensures |codes| == |commands| && (last != 0 ==> armed)
    ensures Exit(commands, codes, last) != if last != 0 then last else FirstFailure(commands, codes)
  {
    GuardIsNotNative();
    var rest := commands[1..];
    if commands[0] == GUARD {
      var more, _ := LostFailure(rest, false);
      codes, last := [0] + more, 0;
      assert codes[1..] == more;
    } else if IsNative(commands[0]) && armed {
      codes, last := Zeros(|commands|), 1;
      assert codes[1..] == Zeros(|rest|);
      ZerosExit(rest);
    } else if IsNative(commands[0]) {
      var more, code := LostFailure(rest, true);
      codes, last := [code] + more, 0;
      assert codes[1..] == more;
    } else {
      var more, before := LostFailure(rest, armed);
      codes, last := [0] + more, before;
      assert codes[1..] == more;
    }
  }

  /** A block reports its first failure, for all exit codes, if and only if a guard stands
      between any two of its native commands. */
  lemma FaithfulIff(commands: seq<string>)
    ensures Faithful(commands) <==> GuardedBetween(commands, false)
  {
    if GuardedBetween(commands, false) {
      forall codes: seq<int> | |codes| == |commands|
        ensures Exit(commands, codes, 0) == FirstFailure(commands, codes)
      {
        GuardedExits(commands, codes, 0, false);
      }
    } else {
      var codes, _ := LostFailure(commands, false);
      assert Exit(commands, codes, 0) != FirstFailure(commands, codes);
    }
  }

  lemma {:induction false} NoNativeIsGuarded(commands: seq<string>, armed: bool)
    requires !HasNative(commands)
    ensures GuardedBetween(commands, armed)
  {
    if commands != [] {
      assert !IsNative(commands[0]);
      assert forall i | 0 <= i < |commands[1..]| :: commands[1..][i] == commands[i + 1];
      NoNativeIsGuarded(commands[1..], if commands[0] == GUARD then false else armed);
    }
  }

  /** What the checker accepts is guarded. */
  lemma {:induction false} AcceptedIsGuarded(commands: seq<string>)
    requires Unguarded(commands) == []
    ensures GuardedBetween(commands, false)
    ensures !HasNative(commands) || commands[0] == GUARD ==> GuardedBetween(commands, true)
  {
    GuardIsNotNative();
    if commands != [] {
      var rest := commands[1..];
      AcceptedIsGuarded(rest);
      if !HasNative(commands) { NoNativeIsGuarded(commands, true); }
      if IsNative(commands[0]) && !HasNative(rest) { NoNativeIsGuarded(rest, true); }
    }
  }

  /** The check is sound: a block without findings reports its first failure whatever happens. */
  lemma CheckIsSound(commands: seq<string>)
    requires Unguarded(commands) == []
    ensures Faithful(commands)
  {
    AcceptedIsGuarded(commands);
    FaithfulIff(commands);
  }

  /** It is exact on blocks of native commands and guards alone; with other commands in between
      it may ask for more than is needed. */
  lemma {:induction false} CheckIsExact(commands: seq<string>)
    requires forall i | 0 <= i < |commands| :: IsNative(commands[i]) || commands[i] == GUARD
    ensures Unguarded(commands) == [] <==> Faithful(commands)
  {
    FaithfulIff(commands);
    if Unguarded(commands) == [] { AcceptedIsGuarded(commands); } else { FindingIsUnguarded(commands, false); }
  }

  lemma {:induction false} FindingIsUnguarded(commands: seq<string>, armed: bool)
    requires forall i | 0 <= i < |commands| :: IsNative(commands[i]) || commands[i] == GUARD
    requires Unguarded(commands) != []
    ensures !GuardedBetween(commands, armed)
  {
    GuardIsNotNative();
    var rest := commands[1..];
    if Unguarded(rest) != [] {
      FindingIsUnguarded(rest, commands[0] != GUARD);
    } else {
      assert IsNative(rest[0]);
    }
  }

  // ----- What pwsh is given -----

  /** YAML ends a line at a line feed, a carriage return, or both together. */
  predicate IsYamlBreak(c: char) { c == '\n' || c == '\r' }

  function YamlLineLength(s: string): (n: nat)
    ensures n <= |s|
    ensures n < |s| ==> IsYamlBreak(s[n])
  {
    if s == [] || IsYamlBreak(s[0]) then 0 else 1 + YamlLineLength(s[1..])
  }

  function YamlLines(s: string): seq<string>
    decreases |s|
  {
    if s == [] then []
    else
      var n := YamlLineLength(s);
      if n == |s| then [s]
      else [s[..n]] + YamlLines(if "\r\n" <= s[n..] then s[n + 2..] else s[n + 1..])
  }

  /** A line YAML counts as blank inside a block scalar. */
  predicate IsBlank(line: string) { forall i | 0 <= i < |line| :: line[i] == ' ' }

  /** The leading spaces. */
  function Leading(line: string): (n: nat)
    ensures n <= |line| && (forall i | 0 <= i < n :: line[i] == ' ') && (n < |line| ==> line[n] != ' ')
  {
    if line == [] || line[0] != ' ' then 0 else 1 + Leading(line[1..])
  }

  /** A block scalar is indented as its first line that is not blank. */
  function Indentation(lines: seq<string>): nat {
    if lines == [] then 0 else if IsBlank(lines[0]) then Indentation(lines[1..]) else Leading(lines[0])
  }

  /** It goes on over blank lines of any width and lines indented at least that far. */
  function Kept(lines: seq<string>, n: nat): seq<string> {
    if lines == [] || !(IsBlank(lines[0]) || Leading(lines[0]) >= n) then []
    else [lines[0]] + Kept(lines[1..], n)
  }

  /** The column of the key `run`; the block is empty unless it is indented further. */
  const KEY := 8

  /** The script pwsh is given, from the lines after `run: |`. */
  function Script(lines: seq<string>): seq<string> {
    if Indentation(lines) <= KEY then [] else Kept(lines, Indentation(lines))
  }

  predicate NoShortBlank(script: seq<string>) {
    forall i | 0 <= i < |script| && IsBlank(script[i]) :: script[i] == [] || |script[i]| >= |INDENT|
  }

  lemma IndentIsLeading(line: string)
    ensures INDENT <= line <==> Leading(line) >= |INDENT|
    ensures IsBlank(line) <==> Leading(line) == |line|
  {
    hide Leading;
    assert forall i | 0 <= i < |INDENT| :: INDENT[i] == ' ';
    if Leading(line) >= |INDENT| {
      assert line[..|INDENT|] == INDENT;
    } else if |line| >= |INDENT| {
      assert line[Leading(line)] != INDENT[Leading(line)];
    }
  }

  lemma {:induction false} BodyLines(lines: seq<string>)
    ensures forall i | 0 <= i < |Body(lines)| :: Body(lines)[i] == [] || INDENT <= Body(lines)[i]
  {
    if lines != [] { BodyLines(lines[1..]); }
  }

  /** The first line of a script that is not blank has its indentation. */
  lemma {:induction false} FirstContent(lines: seq<string>, n: nat) returns (k: nat)
    requires 0 < n == Indentation(lines)
    ensures k < |Kept(lines, n)| && !IsBlank(Kept(lines, n)[k]) && Leading(Kept(lines, n)[k]) == n
  {
    if IsBlank(lines[0]) {
      k := FirstContent(lines[1..], n);
      k := k + 1;
    } else {
      k := 0;
    }
  }

  /** The line after a script kept at indentation `n`, if any, is one the checker would read on at. */
  predicate ReadsOn(lines: seq<string>, kept: seq<string>) { |kept| < |lines| && INDENT <= lines[|kept|] }

  lemma ShortBlankFirst(first: string, more: seq<string>)
    ensures NoShortBlank([first] + more) <==> (IsBlank(first) ==> first == [] || |first| >= |INDENT|) && NoShortBlank(more)
  {
    hide IsBlank;
    var all := [first] + more;
    assert all[0] == first;
    assert forall i | 0 <= i < |more| :: all[i + 1] == more[i];
    assert forall i | 0 < i < |all| :: all[i] == more[i - 1];
  }

  lemma {:induction false} KeptIsRead(lines: seq<string>, n: nat)
    requires n >= |INDENT|
    ensures var kept := Kept(lines, n);
      && (kept <= Body(lines) <==> NoShortBlank(kept))
      && (kept == Body(lines) <==> NoShortBlank(kept) && !ReadsOn(lines, kept))
  {
    if lines != [] {
      var first, rest := lines[0], lines[1..];
      IndentIsLeading(first);
      KeptIsRead(rest, n);
      hide Leading, IsBlank;
      var kept, more := Kept(lines, n), Kept(rest, n);
      if kept != [] {
        assert kept == [first] + more;
        assert kept[1..] == more;
        ShortBlankFirst(first, more);
        if first == [] || INDENT <= first {
          assert Body(lines) == [first] + Body(rest);
          assert Body(lines)[1..] == Body(rest);
        }
      }
    }
  }

  /** The checker reads the whole script exactly when the block is indented by at least ten
      spaces and has no blank line of one to nine; it stops at the first such line. It reads
      exactly the script when, besides, the block is not ended by a line of ten spaces or more
      (which is less indented than the block and so no YAML, unless a comment). */
  lemma BodyIsScriptIff(lines: seq<string>)
    requires Script(lines) != []
    ensures Script(lines) <= Body(lines) <==> Indentation(lines) >= |INDENT| && NoShortBlank(Script(lines))
    ensures Script(lines) == Body(lines) <==>
      Indentation(lines) >= |INDENT| && NoShortBlank(Script(lines)) && !ReadsOn(lines, Script(lines))
  {
    var n := Indentation(lines);
    var script := Script(lines);
    if n >= |INDENT| {
      KeptIsRead(lines, n);
    } else {
      var k := FirstContent(lines, n);
      IndentIsLeading(script[k]);
      BodyLines(lines);
      if k < |Body(lines)| { assert Body(lines)[k] != script[k]; }
    }
  }

  /** Of a block indented by less than ten spaces the checker reads no command at all. */
  lemma {:induction false} ShallowIsUnread(lines: seq<string>)
    requires Indentation(lines) < |INDENT|
    ensures Commands(Body(lines)) == []
  {
    if lines != [] {
      IndentIsLeading(lines[0]);
      if IsBlank(lines[0]) {
        StripBlank(lines[0]);
        ShallowIsUnread(lines[1..]);
      }
    }
  }

  lemma {:induction false} BlockIsChecked(lines: seq<string>, start: nat)
    requires start < |lines| && IsRun(lines[start]) && MissingInBlocks(lines) == []
    ensures Unguarded(Commands(Body(lines[start + 1..]))) == []
  {
    if start > 0 {
      assert lines[1..][start - 1] == lines[start];
      assert lines[1..][start - 1 + 1..] == lines[start + 1..];
      BlockIsChecked(lines[1..], start - 1);
    }
  }

  lemma {:induction false} StepIsChecked(steps: seq<string>, k: nat)
    requires k < |steps| && MissingInSteps(steps) == []
    ensures MissingInStep(steps[k]) == []
  {
    if k > 0 { StepIsChecked(steps[1..], k - 1); }
  }

  lemma {:induction false} CommandsAppend(a: seq<string>, b: seq<string>)
    ensures Commands(a + b) == Commands(a) + Commands(b)
  {
    hide IsCommand, Strip;
    if a == [] {
      assert a + b == b;
    } else {
      assert (a + b)[1..] == a[1..] + b;
      CommandsAppend(a[1..], b);
    }
  }

  lemma {:induction false} UnguardedPrefix(a: seq<string>, b: seq<string>)
    requires Unguarded(a + b) == []
    ensures Unguarded(a) == []
  {
    hide IsNative;
    if a != [] {
      var rest := a[1..];
      assert (a + b)[1..] == rest + b;
      UnguardedPrefix(rest, b);
      if i :| 0 <= i < |rest| && IsNative(rest[i]) { assert (rest + b)[i] == rest[i] && (rest + b)[0] == rest[0]; }
    }
  }

  /** Only line breaks that YAML knows too. */
  predicate PlainBreaks(s: string) { forall i | 0 <= i < |s| && IsBreak(s[i]) :: IsYamlBreak(s[i]) }

  lemma {:induction false} LineLengthsAgree(s: string)
    requires PlainBreaks(s)
    ensures LineLength(s) == YamlLineLength(s)
  {
    if s != [] && !IsBreak(s[0]) { LineLengthsAgree(s[1..]); }
  }

  lemma {:induction false} LineIsUnbroken(s: string)
    ensures forall i | 0 <= i < LineLength(s) :: !IsBreak(s[i])
  {
    if s != [] && !IsBreak(s[0]) { LineIsUnbroken(s[1..]); }
  }

  lemma {:induction false} LinesAreUnbroken(s: string)
    ensures forall k, i | 0 <= k < |SplitLines(s)| && 0 <= i < |SplitLines(s)[k]| :: !IsBreak(SplitLines(s)[k][i])
    decreases |s|
  {
    if s != [] {
      LineIsUnbroken(s);
      var n := LineLength(s);
      hide IsBreak;
      if n < |s| { LinesAreUnbroken(if "\r\n" <= s[n..] then s[n + 2..] else s[n + 1..]); }
    }
  }

  /** YAML keeps every other character in some line. */
  lemma {:induction false} YamlKeeps(s: string, i: nat) returns (k: nat, j: nat)
    requires i < |s| && !IsYamlBreak(s[i])
    ensures k < |YamlLines(s)| && j < |YamlLines(s)[k]| && YamlLines(s)[k][j] == s[i]
    decreases |s|
  {
    hide YamlLineLength, YamlLines, IsYamlBreak, SkipBreak;
    var n := YamlLineLength(s);
    YamlRest(s);
    if i < n {
      k, j := 0, i;
    } else {
      var skip := SkipBreak(s, n);
      BreakIsSkipped(s, n, i);
      var more, at := YamlKeeps(s[skip..], i - skip);
      assert s[skip..][i - skip] == s[i];
      k, j := more + 1, at;
    }
  }

  function SkipBreak(s: string, n: nat): (m: nat)
    requires n < |s|
    ensures n < m <= |s|
  {
    if "\r\n" <= s[n..] then n + 2 else n + 1
  }

  lemma BreakIsSkipped(s: string, n: nat, i: nat)
    requires n <= i < |s| && !IsYamlBreak(s[i]) && IsYamlBreak(s[n])
    ensures i >= SkipBreak(s, n)
  {
    if "\r\n" <= s[n..] { assert s[n + 1] == s[n..][1] == '\n'; }
  }

  lemma YamlRest(s: string)
    requires s != []
    ensures var n := YamlLineLength(s);
      YamlLines(s) == [s[..n]] + if n < |s| then YamlLines(s[SkipBreak(s, n)..]) else []
  {
    assert s[..|s|] == s;
  }

  /** The checker splits a step into YAML's lines exactly when it holds no other line break (a
      vertical tab, a form feed, U+001C to U+001E, U+0085, U+2028 or U+2029). */
  lemma {:induction false} LinesAgreeIff(s: string)
    ensures SplitLines(s) == YamlLines(s) <==> PlainBreaks(s)
    decreases |s|
  {
    if PlainBreaks(s) {
      if s != [] {
        LineLengthsAgree(s);
        var n := LineLength(s);
        if n < |s| { LinesAgreeIff(if "\r\n" <= s[n..] then s[n + 2..] else s[n + 1..]); }
      }
    } else {
      var i :| 0 <= i < |s| && IsBreak(s[i]) && !IsYamlBreak(s[i]);
      LinesAreUnbroken(s);
      var k, j := YamlKeeps(s, i);
    }
  }

  /** What the checker can see of a block: it is empty, or indented by at least ten spaces without
      shorter blank lines. */
  predicate Readable(block: seq<string>) {
    Script(block) == [] || (Indentation(block) >= |INDENT| && NoShortBlank(Script(block)))
  }

  /** A source without findings: every run block of every pwsh step, read by YAML, exits with its
      first failure, provided the step has only YAML's line breaks and the block is readable. */
  lemma SourceIsSound(source: string, a: nat, b: nat, start: nat)
    requires MissingInSteps(Split(source)) == []
    requires IsStep(source, a, b) && PlainBreaks(source[a..b]) && "        shell: pwsh" in YamlLines(source[a..b])
    requires start < |YamlLines(source[a..b])|
    requires YamlLines(source[a..b])[start] in {"        run: |", "        run: |-", "        run: |+"}
    requires Readable(YamlLines(source[a..b])[start + 1..])
    ensures Faithful(Commands(Script(YamlLines(source[a..b])[start + 1..])))
  {
    var step := source[a..b];
    SplitIff(source, step);
    hide Split;
    var k :| 0 <= k < |Split(source)| && Split(source)[k] == step;
    var lines := YamlLines(step);
    RunLines(lines[start]);
    LinesAgreeIff(step);
    StepIsChecked(Split(source), k);
    BlockIsChecked(lines, start);
    BlockIsSound(lines[start + 1..]);
  }

  /** The lines that open a checked block. */
  lemma RunLines(line: string)
    ensures IsRun(line) <==> line in {"        run: |", "        run: |-", "        run: |+"}
  {
    assert RUN + "-" == "        run: |-" && RUN + "+" == "        run: |+";
  }

  lemma BlockIsSound(block: seq<string>)
    requires Readable(block) && Unguarded(Commands(Body(block))) == []
    ensures Faithful(Commands(Script(block)))
  {
    var script := Script(block);
    if script != [] {
      BodyIsScriptIff(block);
      hide Script, Body, Unguarded, Faithful, Commands;
      var more := Body(block)[|script|..];
      assert Body(block) == script + more;
      CommandsAppend(script, more);
      UnguardedPrefix(Commands(script), Commands(more));
      CheckIsSound(Commands(script));
    }
  }

  lemma {:induction false} LStripSpaces(spaces: string, s: string)
    requires s != [] && !IsSpace(s[0]) && forall i | 0 <= i < |spaces| :: IsSpace(spaces[i])
    ensures LStrip(spaces + s) == s
  {
    if spaces == [] {
      assert spaces + s == s;
    } else {
      assert (spaces + s)[1..] == spaces[1..] + s;
      LStripSpaces(spaces[1..], s);
    }
  }

  lemma {:induction false} StripBlank(line: string)
    requires forall i | 0 <= i < |line| :: IsSpace(line[i])
    ensures Strip(line) == []
  {
    if line != [] {
      StripBlank(line[1..]);
      assert LStrip(line) == LStrip(line[1..]);
    }
  }

  /** Two native commands with a short blank line between them: the checker reads only the
      first, reports nothing, and a failure of the first is lost. */
  lemma ShortBlankHidesFinding(first: string, blank: string, second: string)
    requires first == "cargo test" && blank == "   " && second == "node x"
    ensures var lines := [INDENT + first, blank, INDENT + second];
      Unguarded(Commands(Body(lines))) == [] && !Faithful(Commands(Script(lines)))
  {
    Sample(first, second);
    LStripSpaces(INDENT, first);
    LStripSpaces(INDENT, second);
    StripBlank(blank);
    LeadingSpaces(INDENT, first);
    LeadingSpaces(INDENT, second);
    assert !(INDENT <= blank);
    ScriptOfThree(INDENT + first, blank, INDENT + second);
    TwoNatives(first, second);
  }

  /** The same two commands in a block indented by nine spaces: the checker reads neither. */
  lemma NineSpacesHideFinding(first: string, second: string, nine: string)
    requires first == "cargo test" && second == "node x" && nine == "         "
    ensures var lines := [nine + first, nine + second];
      Body(lines) == [] && Unguarded(Commands(Body(lines))) == [] && !Faithful(Commands(Script(lines)))
  {
    Sample(first, second);
    LStripSpaces(nine, first);
    LStripSpaces(nine, second);
    LeadingSpaces(nine, first);
    LeadingSpaces(nine, second);
    IndentIsLeading(nine + first);
    ScriptOfTwo(nine + first, nine + second);
    TwoNatives(first, second);
  }

  lemma ScriptOfTwo(a: string, b: string)
    requires !IsBlank(a) && Leading(a) == Leading(b) == 9 && IsCommand(a) && IsCommand(b)
    ensures Commands(Script([a, b])) == [Strip(a), Strip(b)] && Body([a, b]) == []
  {
    IndentIsLeading(a);
    hide Leading, IsBlank, Strip, IsCommand;
    assert [a, b][1..] == [b] && [b][1..] == [];
    assert Kept([b], 9) == [b] && [a] + [b] == [a, b];
    assert Script([a, b]) == [a, b];
    assert Commands([b]) == [Strip(b)] && [Strip(a)] + [Strip(b)] == [Strip(a), Strip(b)];
  }

  lemma Sample(first: string, second: string)
    requires first == "cargo test" && second == "node x"
    ensures IsNative(first) && IsNative(second)
  {
    assert NATIVES[2] == "cargo" && NATIVES[2] <= first;
    assert NATIVES[4] == "node" && NATIVES[4] <= second;
  }

  lemma {:induction false} LeadingSpaces(spaces: string, s: string)
    requires s != [] && s[0] != ' ' && IsBlank(spaces)
    ensures Leading(spaces + s) == |spaces| && !IsBlank(spaces + s)
  {
    assert (spaces + s)[|spaces|] == s[0];
    if spaces == [] {
      assert spaces + s == s;
    } else {
      assert (spaces + s)[1..] == spaces[1..] + s;
      LeadingSpaces(spaces[1..], s);
    }
  }

  /** A separator that Python takes for a line break ends the block for the checker, whatever
      commands follow on the next lines. */
  lemma SeparatorHidesRest(comment: string, separator: char, tail: string, rest: string)
    requires INDENT <= comment && (forall i | 0 <= i < |comment| :: !IsBreak(comment[i]))
    requires IsBreak(separator) && !IsYamlBreak(separator)
    requires tail != [] && tail[0] != ' ' && (forall i | 0 <= i < |tail| :: !IsBreak(tail[i]))
    ensures Body(SplitLines(comment + ([separator] + (tail + (['\n'] + rest))))) == [comment]
    ensures YamlLines(comment + ([separator] + (tail + (['\n'] + rest)))) == [comment + ([separator] + tail)] + YamlLines(rest)
  {
    var after := tail + (['\n'] + rest);
    FirstLine(comment, separator, after);
    FirstLine(tail, '\n', rest);
    hide SplitLines, YamlLines, YamlLineLength, LineLength, IsBreak, IsYamlBreak, Body;
    BodyOfOne(comment, tail, SplitLines(rest));
    var line := comment + ([separator] + tail);
    JoinedLine(comment, separator, tail);
    FirstYamlLine(line, rest);
    Regroup(comment, [separator], tail, ['\n'] + rest);
  }

  lemma Regroup(a: string, b: string, c: string, d: string)
    ensures a + (b + (c + d)) == a + (b + c) + d
  {
  }

  lemma BodyOfOne(comment: string, tail: string, rest: seq<string>)
    requires INDENT <= comment && tail != [] && tail[0] != ' '
    ensures Body([comment] + ([tail] + rest)) == [comment]
  {
    var lines := [comment] + ([tail] + rest);
    assert lines[1..] == [tail] + rest;
    assert INDENT[0] == ' ';
    assert Body([tail] + rest) == [];
  }

  lemma JoinedLine(comment: string, separator: char, tail: string)
    requires forall i | 0 <= i < |comment| :: !IsBreak(comment[i])
    requires forall i | 0 <= i < |tail| :: !IsBreak(tail[i])
    requires !IsYamlBreak(separator)
    ensures var line := comment + ([separator] + tail); forall i | 0 <= i < |line| :: !IsYamlBreak(line[i])
  {
    var line := comment + ([separator] + tail);
    forall i | 0 <= i < |line| ensures !IsYamlBreak(line[i]) {
      if i < |comment| { assert line[i] == comment[i]; }
      else if i > |comment| { assert line[i] == tail[i - |comment| - 1]; }
    }
  }

  lemma {:induction false} LengthOfLine(line: string, rest: string)
    requires forall i | 0 <= i < |line| :: !IsBreak(line[i])
    requires rest != [] && IsBreak(rest[0])
    ensures LineLength(line + rest) == |line|
  {
    if line == [] {
      assert line + rest == rest;
    } else {
      assert (line + rest)[1..] == line[1..] + rest;
      LengthOfLine(line[1..], rest);
    }
  }

  lemma FirstLine(line: string, end: char, rest: string)
    requires forall i | 0 <= i < |line| :: !IsBreak(line[i])
    requires IsBreak(end) && end != '\r'
    ensures SplitLines(line + ([end] + rest)) == [line] + SplitLines(rest)
  {
    var s := line + ([end] + rest);
    LengthOfLine(line, [end] + rest);
    assert s[..|line|] == line && s[|line|..] == [end] + rest && s[|line| + 1..] == rest;
  }

  lemma {:induction false} LengthOfYamlLine(line: string, rest: string)
    requires forall i | 0 <= i < |line| :: !IsYamlBreak(line[i])
    requires rest != [] && IsYamlBreak(rest[0])
    ensures YamlLineLength(line + rest) == |line|
  {
    if line == [] {
      assert line + rest == rest;
    } else {
      assert (line + rest)[1..] == line[1..] + rest;
      LengthOfYamlLine(line[1..], rest);
    }
  }

  lemma FirstYamlLine(line: string, rest: string)
    requires forall i | 0 <= i < |line| :: !IsYamlBreak(line[i])
    ensures YamlLines(line + (['\n'] + rest)) == [line] + YamlLines(rest)
  {
    var s := line + (['\n'] + rest);
    LengthOfYamlLine(line, ['\n'] + rest);
    assert s[..|line|] == line && s[|line|..] == ['\n'] + rest && s[|line| + 1..] == rest;
  }

  lemma ScriptOfThree(a: string, b: string, c: string)
    requires INDENT <= a && INDENT <= c && IsCommand(a) && IsCommand(c)
    requires Leading(a) == Leading(c) == |INDENT| && !IsBlank(a)
    requires IsBlank(b) && b != [] && !(INDENT <= b) && !IsCommand(b)
    ensures Commands(Body([a, b, c])) == [Strip(a)]
    ensures Commands(Script([a, b, c])) == [Strip(a), Strip(c)]
  {
    hide Strip, IsCommand, Leading;
    var lines := [a, b, c];
    assert lines[1..] == [b, c] && lines[1..][1..] == [c] && [c][1..] == [];
    assert Body(lines[1..]) == [];
    assert Body(lines) == [a] && [a][1..] == [];
    assert Kept([c], |INDENT|) == [c];
    assert [b] + [c] == [b, c] && Kept([b, c], |INDENT|) == [b, c];
    assert [a] + [b, c] == lines && Script(lines) == lines;
    assert Commands([c]) == [Strip(c)] && Commands([b, c]) == [Strip(c)];
  }

  lemma TwoNatives(a: string, b: string)
    requires IsNative(a) && IsNative(b)
    ensures Unguarded([a]) == [] && !Faithful([a, b])
  {
    GuardIsNotNative();
    assert [a, b][1..] == [b];
    assert !GuardedBetween([b], true);
    assert !GuardedBetween([a, b], false);
    FaithfulIff([a, b]);
  }

  // ----- Steps are checked one by one -----

  lemma {:induction false} MissingAppend(a: seq<string>, b: seq<string>)
    ensures MissingInSteps(a + b) == MissingInSteps(a) + MissingInSteps(b)
  {
    hide MissingInStep;
    if a == [] {
      assert a + b == b;
    } else {
      assert (a + b)[1..] == a[1..] + b;
      MissingAppend(a[1..], b);
    }
  }

  lemma StepPrefixStaysInside(a: string, b: string, at: nat)
    requires a != [] && a[|a| - 1] == '\n' && at < |a|
    ensures STEP <= (a + b)[at..] <==> STEP <= a[at..]
  {
    var t := (a + b)[at..];
    assert t == a[at..] + b;
    assert t[|a| - at - 1] == '\n';
    assert forall i | 0 <= i < |STEP| :: STEP[i] != '\n';
  }

  lemma {:induction false} PieceLengthAppend(a: string, b: string, from: nat)
    requires a != [] && a[|a| - 1] == '\n' && STEP <= b && 0 < from <= |a|
    ensures PieceLength(a + b, from) == PieceLength(a, from)
    decreases |a| - from
  {
    if from == |a| {
      assert (a + b)[from..] == b;
    } else {
      StepPrefixStaysInside(a, b, from);
      PieceLengthAppend(a, b, from + 1);
    }
  }

  lemma {:induction false} PiecesAppend(a: string, b: string)
    requires a == [] || a[|a| - 1] == '\n'
    requires STEP <= b
    ensures Pieces(a + b) == Pieces(a) + Pieces(b)
    decreases |a|
  {
    hide PieceLength;
    if a == [] {
      assert a + b == b;
    } else {
      var n := PieceLength(a, 1);
      PieceLengthAppend(a, b, 1);
      assert (a + b)[..n] == a[..n];
      assert (a + b)[n..] == a[n..] + b;
      PiecesAppend(a[n..], b);
    }
  }

  lemma SplitIsPieces(source: string)
    ensures MissingInSteps(Split(source)) == MissingInSteps(Pieces(source))
  {
    var head: seq<string> := if source == [] || STEP <= source then [[]] else [];
    MissingAppend(head, Pieces(source));
    assert MissingInStep([]) == [];
    assert MissingInSteps(head) == [];
  }

  /** The check distributes over concatenation of whole steps. */
  lemma CheckDistributes(a: string, b: string)
    requires a == [] || a[|a| - 1] == '\n'
    requires STEP <= b
    ensures MissingInSteps(Split(a + b)) == MissingInSteps(Split(a)) + MissingInSteps(Split(b))
  {
    SplitIsPieces(a + b);
    SplitIsPieces(a);
    SplitIsPieces(b);
    PiecesAppend(a, b);
    MissingAppend(Pieces(a), Pieces(b));
  }

  // ----- The loops of `missing_guards` -----

  /** The commands of one block: the loop over `lines[start + 1:]`. */
  method BlockCommands(lines: seq<string>) returns (commands: seq<string>)
    ensures commands == Commands(Body(lines))
  {
    hide Strip;
    commands := [];
    var i := 0;
    while i < |lines|
      invariant i <= |lines|
      invariant Commands(Body(lines)) == commands + Commands(Body(lines[i..]))
    {
      assert lines[i..][1..] == lines[i + 1..];
      if lines[i] != [] && !(INDENT <= lines[i]) { return; }
      var body := Strip(lines[i]);
      if body != [] && body[0] != '#' { commands := commands + [body]; }
      i := i + 1;
    }
  }

  /** `native`: the indices of the native commands, in order. */
  method NativeIndices(commands: seq<string>) returns (native: seq<nat>)
    ensures forall k | 0 <= k < |native| :: native[k] < |commands| && IsNative(commands[native[k]])
    ensures forall j, k | 0 <= j < k < |native| :: native[j] < native[k]
    ensures forall i | 0 <= i < |commands| && IsNative(commands[i]) :: i in native
  {
    hide IsNative;
    native := [];
    for i := 0 to |commands|
      invariant forall k | 0 <= k < |native| :: native[k] < i && IsNative(commands[native[k]])
      invariant forall j, k | 0 <= j < k < |native| :: native[j] < native[k]
      invariant forall j | 0 <= j < i && IsNative(commands[j]) :: j in native
    {
      if IsNative(commands[i]) { native := native + [i]; }
    }
  }

  /** Skipping commands that are not native adds no finding. */
  lemma {:induction false} UnguardedSkips(commands: seq<string>, from: nat, to: nat)
    requires from <= to <= |commands|
    requires forall i | from <= i < to :: !IsNative(commands[i])
    ensures Unguarded(commands[from..]) == Unguarded(commands[to..])
    decreases |commands| - from
  {
    hide IsNative;
    if from < to {
      assert commands[from..][1..] == commands[from + 1..];
      UnguardedSkips(commands, from + 1, to);
    }
  }

  lemma UnguardedStep(commands: seq<string>, i: nat, next: nat)
    requires i < next < |commands| && IsNative(commands[i]) && IsNative(commands[next])
    requires forall j | i < j < next :: !IsNative(commands[j])
    ensures Unguarded(commands[i..])
         == (if commands[i + 1] != GUARD then [commands[i]] else []) + Unguarded(commands[next..])
  {
    hide IsNative;
    var rest := commands[i..][1..];
    assert rest == commands[i + 1..];
    assert rest[next - i - 1] == commands[next];
    UnguardedSkips(commands, i + 1, next);
  }

  lemma {:induction false} LastNative(commands: seq<string>, i: nat)
    requires i < |commands|
    requires forall j | i < j < |commands| :: !IsNative(commands[j])
    ensures Unguarded(commands[i..]) == []
  {
    hide IsNative;
    assert commands[i..][1..] == commands[i + 1..];
    UnguardedSkips(commands, i + 1, |commands|);
    assert commands[|commands|..] == [];
  }

  /** The loop over `native[:-1]`. */
  method BlockFindings(commands: seq<string>) returns (missing: seq<string>)
    ensures missing == Unguarded(commands)
  {
    hide IsNative, Unguarded;
    missing := [];
    var native := NativeIndices(commands);
    assert commands[0..] == commands;
    if native == [] {
      UnguardedSkips(commands, 0, |commands|);
      LastOfNone(commands);
      return;
    }
    UnguardedSkips(commands, 0, native[0]);
    for k := 0 to |native| - 1
      invariant Unguarded(commands) == missing + Unguarded(commands[native[k]..])
    {
      var index := native[k];
      UnguardedStep(commands, index, native[k + 1]);
      if commands[index + 1] != GUARD { missing := missing + [commands[index]]; }
    }
    LastNative(commands, native[|native| - 1]);
  }

  lemma LastOfNone(commands: seq<string>)
    ensures Unguarded(commands[|commands|..]) == []
  {
  }

  /** One step: the loop over its lines. */
  method StepFindings(step: string) returns (missing: seq<string>)
    ensures missing == MissingInStep(step)
  {
    hide SplitLines, Unguarded, Commands, Body, IsRun;
    var lines := SplitLines(step);
    missing := [];
    if SHELL !in lines { return; }
    for start := 0 to |lines|
      invariant MissingInBlocks(lines) == missing + MissingInBlocks(lines[start..])
    {
      assert lines[start..][1..] == lines[start + 1..];
      if !IsRun(lines[start]) { continue; }
      var commands := BlockCommands(lines[start + 1..]);
      var found := BlockFindings(commands);
      missing := missing + found;
    }
  }

  /** The whole check. */
  method MissingGuards(source: string) returns (missing: seq<string>)
    ensures missing == MissingInSteps(Split(source))
  {
    hide Split, MissingInStep;
    missing := [];
    var steps := Split(source);
    for s := 0 to |steps|
      invariant MissingInSteps(steps) == missing + MissingInSteps(steps[s..])
    {
      assert steps[s..][1..] == steps[s + 1..];
      var found := StepFindings(steps[s]);
      missing := missing + found;
    }
  }
}
