/** scripts/ban-reference-sql.py: prints JSON cases as a PostgreSQL COPY text stream, against a
    reader of that format (PostgreSQL COPY, "Text Format") for one column. */
module CopyStream {
  import opened Wrappers
  import opened Json
  import opened Jsonb

  // ----- Printing -----

  /** str.replace("\\", "\\\\") */
  function DoubleBackslashes(s: string): string {
    if s == [] then [] else (if s[0] == '\\' then "\\\\" else [s[0]]) + DoubleBackslashes(s[1..])
  }

  function Row(v: Json): string { DoubleBackslashes(Dumps(v)) + "\n" }

  function Rows(cases: seq<Json>): string {
    if cases == [] then [] else Row(cases[0]) + Rows(cases[1..])
  }

  /** The rows and the terminator, as `print` writes them. */
  function Stream(cases: seq<Json>): string { Rows(cases) + "\\.\n" }

  // ----- Reading -----

  predicate IsOctal(c: char) { '0' <= c <= '7' }

  /** Up to `most` octal digits: the character they denote, modulo a byte. */
  function ReadOctal(s: string, sofar: nat, most: nat): (nat, string)
    decreases most, s
  {
    if most == 0 || s == [] || !IsOctal(s[0]) then (sofar % 256, s)
    else ReadOctal(s[1..], 8 * sofar + (s[0] - '0') as nat, most - 1)
  }

  function ReadHex(s: string, sofar: nat, most: nat): (nat, string)
    decreases most, s
  {
    if most == 0 || s == [] || HexValue(s[0]).None? then (sofar % 256, s)
    else ReadHex(s[1..], 16 * sofar + HexValue(s[0]).value, most - 1)
  }

  /** A backslash sequence, after the backslash. Any other character stands for itself, except
      that a period would be a misplaced end marker. */
  function ReadSequence(s: string): Option<(char, string)> {
    if s == [] || s[0] == '.' then None
    else if IsOctal(s[0]) then
      var (n, rest) := ReadOctal(s, 0, 3);
      if n < 256 then Some((n as char, rest)) else None
    else if s[0] == 'x' && |s| > 1 && HexValue(s[1]).Some? then
      var (n, rest) := ReadHex(s[1..], 0, 2);
      if n < 256 then Some((n as char, rest)) else None
    else
      var c := match s[0]
        case 'b' => '\U{8}'
        case 'f' => '\U{c}'
        case 'n' => '\n'
        case 'r' => '\r'
        case 't' => '\t'
        case 'v' => '\U{b}'
        case c => c;
      Some((c, s[1..]))
  }

  /** One field through its newline. A raw tab would start a second column, and a raw carriage
      return is refused. */
  function ReadField(s: string): Option<(string, string)>
    decreases |s|
  {
    if s == [] || s[0] == '\t' || s[0] == '\r' then None
    else if s[0] == '\n' then Some(([], s[1..]))
    else
      var first := if s[0] == '\\' then ReadSequence(s[1..]) else Some((s[0], s[1..]));
      if first.None? || |first.value.1| >= |s| then None
      else
        match ReadField(first.value.1)
        case None => None
        case Some((more, rest)) => Some(([first.value.0] + more, rest))
  }

  /** Rows up to the line that is just `\.`; a line that is just `\N` is a NULL. */
  function ReadCopy(s: string): Option<(seq<Option<string>>, string)>
    decreases |s|
  {
    if "\\.\n" <= s then Some(([], s[3..]))
    else
      var row := if "\\N\n" <= s then Some((None, s[3..]))
                 else match ReadField(s) { case None => None case Some((t, rest)) => Some((Some(t), rest)) };
      if row.None? || |row.value.1| >= |s| then None
      else
        match ReadCopy(row.value.1)
        case None => None
        case Some((more, rest)) => Some(([row.value.0] + more, rest))
  }

  /** The values of the rows as JSON text (RFC 8259). */
  function ReadCases(rows: seq<Option<string>>): Option<seq<Json>> {
    if rows == [] then Some([])
    else if rows[0].None? then None
    else
      match Read(rows[0].value)
      case None => None
      case Some((v, rest)) =>
        if rest != [] then None
        else match ReadCases(rows[1..]) { case None => None case Some(more) => Some([v] + more) }
  }

  // ----- Round trip -----

  /** Text that COPY can carry on one line of one column. */
  ghost predicate Plain(s: string) {
    forall i | 0 <= i < |s| :: s[i] !in {'\n', '\t', '\r'}
  }

  /** Doubling every backslash is undone by COPY's unescaping, whatever follows the line. */
  lemma DoubledReads(tail: string)
    ensures ReadSequence("\\" + tail) == Some(('\\', tail))
  {
    assert ("\\" + tail)[1..] == tail;
  }

  lemma {:induction false} FieldReads(t: string, rest: string)
    requires Plain(t)
    ensures ReadField(DoubleBackslashes(t) + "\n" + rest) == Some((t, rest))
  {
    hide ReadSequence;
    var s := DoubleBackslashes(t) + "\n" + rest;
    if t == [] {
      assert s[1..] == rest;
    } else {
      var tail := DoubleBackslashes(t[1..]) + "\n" + rest;
      FieldReads(t[1..], rest);
      if t[0] == '\\' {
        assert s == "\\\\" + tail;
        assert s[1..] == "\\" + tail;
        DoubledReads(tail);
      } else {
        assert s == [t[0]] + tail;
        assert s[1..] == tail;
      }
      assert [t[0]] + t[1..] == t;
    }
  }

  /** Only backslashes are touched. */
  lemma {:induction false} DoublesOnly(a: string, b: string)
    ensures DoubleBackslashes(a + b) == DoubleBackslashes(a) + DoubleBackslashes(b)
    ensures '\\' !in a ==> DoubleBackslashes(a) == a
    ensures DoubleBackslashes("\\") == "\\\\"
  {
    assert "\\"[1..] == [];
    if a == [] {
      assert a + b == b;
    } else {
      assert (a + b)[1..] == a[1..] + b && a == [a[0]] + a[1..];
      DoublesOnly(a[1..], b);
    }
  }

  lemma RowIsPlain(v: Json)
    ensures Plain(Dumps(v))
  {
    DumpPrintable(v);
    hide Dumps;
  }

  /** No row can be taken for the terminator or for NULL: it does not start with a backslash. */
  lemma RowStart(v: Json)
    ensures Row(v) != [] && Row(v)[0] != '\\'
  {
    DumpStart(v);
    hide Dumps;
  }

  lemma {:induction false} StreamReads(cases: seq<Json>, after: string)
    ensures ReadCopy(Stream(cases) + after) == Some((Texts(cases), after))
  {
    hide Dumps, ReadField;
    var s := Stream(cases) + after;
    if cases == [] {
      assert s[3..] == after;
      assert s[..3] == "\\.\n";
    } else {
      var tail := Stream(cases[1..]) + after;
      assert s == DoubleBackslashes(Dumps(cases[0])) + "\n" + tail;
      assert s == Row(cases[0]) + tail;
      RowStart(cases[0]);
      assert s[0] == Row(cases[0])[0];
      RowIsPlain(cases[0]);
      FieldReads(Dumps(cases[0]), tail);
      StreamReads(cases[1..], after);
    }
  }

  function Texts(cases: seq<Json>): seq<Option<string>> {
    if cases == [] then [] else [Some(Dumps(cases[0]))] + Texts(cases[1..])
  }

  lemma {:induction false} TextsRead(cases: seq<Json>)
    ensures ReadCases(Texts(cases)) == Some(cases)
  {
    if cases != [] {
      ValueReads(cases[0], []);
      hide Read, Dumps;
      assert Dumps(cases[0]) + [] == Dumps(cases[0]);
      TextsRead(cases[1..]);
      assert [cases[0]] + cases[1..] == cases;
    }
  }

  /** Reading `text` as COPY data, whatever follows, stops at its end with rows that are `cases`. */
  ghost predicate Loads(text: string, cases: seq<Json>) {
    forall after: string ::
      match ReadCopy(text + after)
      case None => false
      case Some((rows, rest)) => rest == after && ReadCases(rows) == Some(cases)
  }

  /** Loading the stream gives exactly the original cases, and the statements after it are left
      untouched. */
  lemma StreamRoundTrip(cases: seq<Json>)
    ensures Loads(Stream(cases), cases)
  {
    forall after ensures ReadCopy(Stream(cases) + after) == Some((Texts(cases), after)) {
      StreamReads(cases, after);
    }
    TextsRead(cases);
    hide Stream;
  }

  /** COPY into the script's one jsonb column, NOT NULL: its values and what follows the data. */
  function LoadColumn(data: string): Option<(seq<Value>, string)> {
    match ReadCopy(data)
    case None => None
    case Some((rows, rest)) =>
      var values := ReadCases(rows);
      if values.None? then None
      else
        var column := InputAll(values.value);
        if column.None? then None else Some((column.value, rest))
  }

  /** The stream loads into the column exactly when no string and no name of a case holds a NUL,
      and then as the jsonb value of each case. */
  ghost predicate Holds(text: string, cases: seq<Json>) {
    forall after: string ::
      && (LoadColumn(text + after).Some? <==> forall i | 0 <= i < |cases| :: NoNul(cases[i]))
      && (LoadColumn(text + after).Some? ==>
            var (column, rest) := LoadColumn(text + after).value;
            rest == after && |column| == |cases| && forall i | 0 <= i < |cases| :: Input(cases[i]) == Some(column[i]))
  }

  lemma StreamHolds(cases: seq<Json>)
    ensures Holds(Stream(cases), cases)
  {
    forall after: string ensures LoadColumn(Stream(cases) + after)
      == if InputAll(cases).None? then None else Some((InputAll(cases).value, after))
    {
      StreamReads(cases, after);
      TextsRead(cases);
    }
    InputAllIff(cases);
    hide LoadColumn, Stream, InputAll, Input, NoNul;
  }

  // ----- The script -----

  const EXPECTED := 13840

  lemma {:induction false} RowsAppend(cases: seq<Json>, v: Json)
    ensures Rows(cases + [v]) == Rows(cases) + Row(v)
  {
    hide Row;
    if cases == [] {
      assert cases + [v] == [v] && [v][1..] == [];
    } else {
      assert (cases + [v])[1..] == cases[1..] + [v];
      RowsAppend(cases[1..], v);
    }
  }

  /** The lines between COPY and GRANT; None is the ValueError for an unexpected case count. */
  method Emit(cases: seq<Json>) returns (out: Option<string>)
    ensures out.Some? <==> |cases| == EXPECTED
    ensures out.Some? ==> Loads(out.value, cases) && Holds(out.value, cases)
  {
    if |cases| != EXPECTED { return None; }
    var text := "";
    for i := 0 to |cases|
      invariant text == Rows(cases[..i])
    {
      assert cases[..i + 1] == cases[..i] + [cases[i]];
      RowsAppend(cases[..i], cases[i]);
      text := text + (DoubleBackslashes(Dumps(cases[i])) + "\n");
    }
    assert cases[..|cases|] == cases;
    text := text + "\\.\n";
    StreamRoundTrip(cases);
    StreamHolds(cases);
    return Some(text);
  }
}
