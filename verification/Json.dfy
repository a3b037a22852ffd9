/** Compact JSON as `json.dumps(value, separators=(",", ":"))` prints it, and a reader of it
    (RFC 8259). Numbers are integers, as in the fixture's cases. */
module Json {
  import opened Wrappers
  import opened Decimals

  datatype Json =
    | Null
    | Bool(b: bool)
    | Int(n: int)
    | Str(s: string)
    | Arr(elements: seq<Json>)
    | Obj(members: seq<Field>)

  datatype Field = Field(name: string, value: Json)

  // ----- Printing -----

  function HexDigit(d: nat): (c: char)
    requires d < 16
    ensures HexValue(c) == Some(d)
    ensures ' ' < c <= '~'
  {
    if d < 10 then '0' + d as char else 'a' + (d - 10) as char
  }

  function HexValue(c: char): Option<nat> {
    if '0' <= c <= '9' then Some((c - '0') as nat)
    else if 'a' <= c <= 'f' then Some((c - 'a') as nat + 10)
    else if 'A' <= c <= 'F' then Some((c - 'A') as nat + 10)
    else None
  }

  /** '\\u{0:04x}' */
  function Unit(n: nat): string
    requires n < 0x1_0000
  {
    "\\u" + [HexDigit(n / 0x1000), HexDigit(n / 0x100 % 16), HexDigit(n / 0x10 % 16), HexDigit(n % 16)]
  }

  /** One character of a string with ensure_ascii: only printable ASCII is left as it is, and a
      character beyond the BMP becomes a surrogate pair. */
  function ShowChar(c: char): string {
    if c == '"' then "\\\""
    else if c == '\\' then "\\\\"
    else if ' ' <= c <= '~' then [c]
    else if c == '\n' then "\\n"
    else if c == '\r' then "\\r"
    else if c == '\t' then "\\t"
    else if c == '\U{c}' then "\\f"
    else if c == '\U{8}' then "\\b"
    else UnicodeEscape(c as nat)
  }

  function UnicodeEscape(n: nat): string
    requires n < 0x11_0000
  {
    if n < 0x1_0000 then Unit(n)
    else Unit(0xD800 + (n - 0x1_0000) / 0x400) + Unit(0xDC00 + (n - 0x1_0000) % 0x400)
  }

  function ShowChars(s: string): string {
    if s == [] then [] else ShowChar(s[0]) + ShowChars(s[1..])
  }

  function ShowString(s: string): string { "\"" + ShowChars(s) + "\"" }

  function ShowInt(n: int): string { if n < 0 then "-" + Show(-n) else Show(n) }

  function Dumps(v: Json): string
    decreases v, 0
  {
    match v
    case Null => "null"
    case Bool(b) => if b then "true" else "false"
    case Int(n) => ShowInt(n)
    case Str(s) => ShowString(s)
    case Arr(elements) => "[" + DumpElements(elements) + "]"
    case Obj(members) => "{" + DumpMembers(members) + "}"
  }

  function DumpElements(vs: seq<Json>): string
    decreases vs, 1
  {
    if vs == [] then []
    else Dumps(vs[0]) + if |vs| == 1 then [] else "," + DumpElements(vs[1..])
  }

  function DumpMembers(ms: seq<Field>): string
    decreases ms, 1
  {
    if ms == [] then []
    else ShowString(ms[0].name) + ":" + Dumps(ms[0].value) + if |ms| == 1 then [] else "," + DumpMembers(ms[1..])
  }

  // ----- Reading -----

  function ReadUnit(s: string): Option<(nat, string)> {
    if |s| < 4 || HexValue(s[0]).None? || HexValue(s[1]).None? || HexValue(s[2]).None? || HexValue(s[3]).None? then None
    else Some((0x1000 * HexValue(s[0]).value + 0x100 * HexValue(s[1]).value + 0x10 * HexValue(s[2]).value +
               HexValue(s[3]).value, s[4..]))
  }

  /** A \u escape, with its partner when it is the first half of a surrogate pair. */
  function ReadUnicode(s: string): Option<(char, string)> {
    match ReadUnit(s)
    case None => None
    case Some((hi, rest)) =>
      if hi < 0xD800 || 0xE000 <= hi < 0x1_0000 then Some((hi as char, rest))
      else if hi >= 0xDC00 || |rest| < 2 || rest[..2] != "\\u" then None
      else
        match ReadUnit(rest[2..])
        case None => None
        case Some((lo, after)) =>
          if !(0xDC00 <= lo < 0xE000) || hi >= 0xDC00 then None
          else Some(((0x1_0000 + 0x400 * (hi - 0xD800) + (lo - 0xDC00)) as char, after))
  }

  /** One escape, after its backslash. */
  function ReadEscape(s: string): Option<(char, string)> {
    if s == [] then None
    else
      var rest := s[1..];
      match s[0]
      case '"' => Some(('"', rest))
      case '\\' => Some(('\\', rest))
      case '/' => Some(('/', rest))
      case 'b' => Some(('\U{8}', rest))
      case 'f' => Some(('\U{c}', rest))
      case 'n' => Some(('\n', rest))
      case 'r' => Some(('\r', rest))
      case 't' => Some(('\t', rest))
      case 'u' => ReadUnicode(rest)
      case _ => None
  }

  /** One character of a string, raw or escaped; control characters must be escaped. */
  function ReadChar(s: string): Option<(char, string)> {
    if s == [] || s[0] < ' ' then None
    else if s[0] == '\\' then ReadEscape(s[1..])
    else Some((s[0], s[1..]))
  }

  function ReadChars(s: string): Option<(string, string)>
    decreases |s|
  {
    if s == [] then None
    else if s[0] == '"' then Some(([], s[1..]))
    else
      match ReadChar(s)
      case None => None
      case Some((c, rest)) =>
        if |rest| >= |s| then None
        else
          match ReadChars(rest)
          case None => None
          case Some((more, after)) => Some(([c] + more, after))
  }

  function ReadString(s: string): Option<(string, string)> {
    if s == [] || s[0] != '"' then None else ReadChars(s[1..])
  }

  /** The longest digit prefix. */
  function Digits(s: string): (n: nat)
    ensures n <= |s| && AllDigits(s[..n])
  {
    if s == [] || !IsDigit(s[0]) then 0
    else
      var n := Digits(s[1..]);
      assert s[..n + 1] == [s[0]] + s[1..][..n];
      n + 1
  }

  /** An unsigned integer: no leading zero, and no fraction or exponent after it. */
  function ReadNat(s: string): Option<(nat, string)> {
    var n := Digits(s);
    if !Canonical(s[..n]) || (n < |s| && s[n] in {'.', 'e', 'E'}) then None
    else Some((Value(s[..n]), s[n..]))
  }

  function ReadInt(s: string): Option<(int, string)> {
    if s != [] && s[0] == '-' then
      match ReadNat(s[1..]) { case None => None case Some((n, rest)) => Some((-(n as int), rest)) }
    else
      match ReadNat(s) { case None => None case Some((n, rest)) => Some((n, rest)) }
  }

  function ReadWord(s: string, word: string, v: Json): Option<(Json, string)> {
    if word <= s then Some((v, s[|word|..])) else None
  }

  function Read(s: string): Option<(Json, string)>
    decreases |s|, 0
  {
    if s == [] then None
    else if s[0] == 'n' then ReadWord(s, "null", Null)
    else if s[0] == 't' then ReadWord(s, "true", Bool(true))
    else if s[0] == 'f' then ReadWord(s, "false", Bool(false))
    else if s[0] == '"' then
      match ReadString(s) { case None => None case Some((t, rest)) => Some((Str(t), rest)) }
    else if s[0] == '[' then
      (match ReadElements(s[1..], true) { case None => None case Some((vs, rest)) => Some((Arr(vs), rest)) })
    else if s[0] == '{' then
      (match ReadMembers(s[1..], true) { case None => None case Some((ms, rest)) => Some((Obj(ms), rest)) })
    else
      match ReadInt(s) { case None => None case Some((n, rest)) => Some((Int(n), rest)) }
  }

  /** Elements up to the closing bracket; an empty list is allowed only right after the opening. */
  function ReadElements(s: string, first: bool): Option<(seq<Json>, string)>
    decreases |s|, 1
  {
    if s != [] && s[0] == ']' && first then Some(([], s[1..]))
    else
      match Read(s)
      case None => None
      case Some((v, rest)) =>
        if rest == [] || |rest| >= |s| then None
        else if rest[0] == ']' then Some(([v], rest[1..]))
        else if rest[0] != ',' then None
        else
          match ReadElements(rest[1..], false)
          case None => None
          case Some((more, after)) => Some(([v] + more, after))
  }

  /** A name, a colon and a value. */
  function ReadMember(s: string): Option<(Field, string)>
    decreases |s|, 1
  {
    match ReadString(s)
    case None => None
    case Some((name, colon)) =>
      if colon == [] || colon[0] != ':' || |colon| > |s| then None
      else
        match Read(colon[1..])
        case None => None
        case Some((v, rest)) => Some((Field(name, v), rest))
  }

  function ReadMembers(s: string, first: bool): Option<(seq<Field>, string)>
    decreases |s|, 2
  {
    if s != [] && s[0] == '}' && first then Some(([], s[1..]))
    else
      match ReadMember(s)
      case None => None
      case Some((m, rest)) =>
        if rest == [] || |rest| >= |s| then None
        else if rest[0] == '}' then Some(([m], rest[1..]))
        else if rest[0] != ',' then None
        else
          match ReadMembers(rest[1..], false)
          case None => None
          case Some((more, after)) => Some(([m] + more, after))
  }

  // ----- Round trip -----

  lemma Nibbles(n: nat)
    ensures 0x1000 * (n / 0x1000) + 0x100 * (n / 0x100 % 16) + 0x10 * (n / 0x10 % 16) + n % 16 == n
  {
    assert n / 0x100 / 16 == n / 0x1000 && n / 0x10 / 16 == n / 0x100;
  }

  lemma UnitReads(n: nat, rest: string)
    requires n < 0x1_0000
    ensures ReadUnit(Unit(n)[2..] + rest) == Some((n, rest))
  {
    hide HexDigit, HexValue;
    var a, b, c, d := n / 0x1000, n / 0x100 % 16, n / 0x10 % 16, n % 16;
    var s := Unit(n)[2..] + rest;
    assert s == [HexDigit(a), HexDigit(b), HexDigit(c), HexDigit(d)] + rest;
    assert s[4..] == rest;
    Nibbles(n);
  }

  /** The escape of a character beyond printable ASCII, without its leading "\\u". */
  lemma PairReads(hi: nat, lo: nat, rest: string)
    requires 0xD800 <= hi < 0xDC00 <= lo < 0xE000
    ensures ReadUnicode((Unit(hi) + Unit(lo))[2..] + rest)
         == Some(((0x1_0000 + 0x400 * (hi - 0xD800) + (lo - 0xDC00)) as char, rest))
  {
    var tail := Unit(lo) + rest;
    assert (Unit(hi) + Unit(lo))[2..] + rest == Unit(hi)[2..] + tail;
    assert tail[..2] == "\\u" && tail[2..] == Unit(lo)[2..] + rest;
    UnitReads(hi, tail);
    UnitReads(lo, rest);
    hide ReadUnit, Unit;
  }

  lemma BmpReads(c: char, rest: string)
    requires c as nat < 0x1_0000
    ensures ReadUnicode(Unit(c as nat)[2..] + rest) == Some((c, rest))
  {
    UnitReads(c as nat, rest);
    hide ReadUnit, Unit;
  }

  lemma UnicodeReads(c: char, rest: string)
    ensures ReadUnicode(UnicodeEscape(c as nat)[2..] + rest) == Some((c, rest))
  {
    hide ReadUnicode, Unit;
    if c as nat < 0x1_0000 {
      BmpReads(c, rest);
    } else {
      var v := c as nat - 0x1_0000;
      PairReads(0xD800 + v / 0x400, 0xDC00 + v % 0x400, rest);
      assert 0x400 * (v / 0x400) + v % 0x400 == v;
    }
  }

  lemma CharReads(c: char, rest: string)
    ensures var s := ShowChar(c) + rest; s != [] && s[0] != '"' && |rest| < |s| && ReadChar(s) == Some((c, rest))
  {
    var s := ShowChar(c) + rest;
    hide ReadUnicode;
    if ' ' <= c <= '~' && c != '"' && c != '\\' {
      assert s[1..] == rest;
    } else if c in {'"', '\\', '\n', '\r', '\t', '\U{c}', '\U{8}'} {
      assert s[1..][1..] == rest;
    } else {
      UnicodeReads(c, rest);
      assert s[1..][0] == 'u';
      assert s[1..][1..] == UnicodeEscape(c as nat)[2..] + rest;
    }
  }

  lemma {:induction false} CharsRead(t: string, rest: string)
    ensures ReadChars(ShowChars(t) + "\"" + rest) == Some((t, rest))
  {
    var s := ShowChars(t) + "\"" + rest;
    if t == [] {
      assert s[1..] == rest;
    } else {
      var tail := ShowChars(t[1..]) + "\"" + rest;
      assert s == ShowChar(t[0]) + tail;
      CharReads(t[0], tail);
      hide ReadChar, ShowChar;
      CharsRead(t[1..], rest);
      assert [t[0]] + t[1..] == t;
    }
  }

  lemma StringReads(t: string, rest: string)
    ensures ReadString(ShowString(t) + rest) == Some((t, rest))
  {
    var s := ShowString(t) + rest;
    assert s[1..] == ShowChars(t) + "\"" + rest;
    CharsRead(t, rest);
  }

  /** A number must not run into what follows it. */
  predicate Ends(rest: string) {
    rest == [] || (!IsDigit(rest[0]) && rest[0] !in {'.', 'e', 'E'})
  }

  lemma {:induction false} DigitsThen(t: string, rest: string)
    requires AllDigits(t) && Ends(rest)
    ensures Digits(t + rest) == |t|
  {
    if t == [] {
      assert t + rest == rest;
    } else {
      assert (t + rest)[1..] == t[1..] + rest;
      DigitsThen(t[1..], rest);
    }
  }

  lemma NatReads(n: nat, rest: string)
    requires Ends(rest)
    ensures ReadNat(Show(n) + rest) == Some((n, rest))
  {
    var t := Show(n);
    ShowIsCanonical(n);
    DigitsThen(t, rest);
    assert (t + rest)[..|t|] == t && (t + rest)[|t|..] == rest;
  }

  lemma ShowStart(n: nat)
    ensures Show(n) != [] && IsDigit(Show(n)[0])
  {
    ShowIsCanonical(n);
  }

  lemma IntReads(n: int, rest: string)
    requires Ends(rest)
    ensures ReadInt(ShowInt(n) + rest) == Some((n, rest))
    ensures ShowInt(n) != [] && (ShowInt(n)[0] == '-' || IsDigit(ShowInt(n)[0]))
  {
    hide ReadNat, Show, Ends;
    var size: nat := if n < 0 then -n else n;
    var t := Show(size);
    ShowStart(size);
    NatReads(size, rest);
    if n < 0 {
      assert (ShowInt(n) + rest)[1..] == t + rest;
    } else {
      assert (t + rest)[0] == t[0];
    }
  }

  lemma DumpStart(v: Json)
    ensures Dumps(v) != []
    ensures Dumps(v)[0] in {'n', 't', 'f', '"', '[', '{', '-'} || IsDigit(Dumps(v)[0])
  {
    hide ShowInt, ShowChars, DumpElements, DumpMembers;
    if v.Int? { IntReads(v.n, []); }
  }

  lemma WordReads(word: string, v: Json, rest: string)
    ensures ReadWord(word + rest, word, v) == Some((v, rest))
  {
    assert (word + rest)[|word|..] == rest;
  }

  /** Reading what was printed gives the value back and stops at its end, for every value. */
  lemma {:induction false} ValueReads(v: Json, rest: string)
    requires Ends(rest)
    ensures Read(Dumps(v) + rest) == Some((v, rest))
    decreases v, 0
  {
    hide ReadString, ReadInt, ShowString, ShowInt, ReadWord, Ends, IsDigit;
    hide ReadElements, ReadMembers, DumpElements, DumpMembers;
    match v
    case Null => WordReads("null", v, rest);
    case Bool(b) => WordReads(if b then "true" else "false", v, rest);
    case Int(n) => IntegerReads(n, rest);
    case Str(t) => TextReads(t, rest);
    case Arr(vs) =>
      if vs != [] { ElementsRead(vs, rest, true); }
      ArrayReads(vs, rest);
    case Obj(ms) =>
      if ms != [] { MembersRead(ms, rest, true); }
      ObjectReads(ms, rest);
  }

  lemma ArrayReads(vs: seq<Json>, rest: string)
    requires vs != [] ==> ReadElements(DumpElements(vs) + "]" + rest, true) == Some((vs, rest))
    ensures Read("[" + DumpElements(vs) + "]" + rest) == Some((Arr(vs), rest))
  {
    hide Dumps;
    var s := "[" + DumpElements(vs) + "]" + rest;
    assert s[1..] == DumpElements(vs) + "]" + rest;
    if vs == [] { assert s[1..][1..] == rest; }
  }

  lemma ObjectReads(ms: seq<Field>, rest: string)
    requires ms != [] ==> ReadMembers(DumpMembers(ms) + "}" + rest, true) == Some((ms, rest))
    ensures Read("{" + DumpMembers(ms) + "}" + rest) == Some((Obj(ms), rest))
  {
    hide Dumps, ShowString;
    var s := "{" + DumpMembers(ms) + "}" + rest;
    assert s[1..] == DumpMembers(ms) + "}" + rest;
    if ms == [] { assert s[1..][1..] == rest; }
  }

  lemma IntegerReads(n: int, rest: string)
    requires Ends(rest)
    ensures Read(ShowInt(n) + rest) == Some((Int(n), rest))
  {
    IntReads(n, rest);
    hide ReadInt, ShowInt;
    assert (ShowInt(n) + rest)[0] == ShowInt(n)[0];
  }

  lemma TextReads(t: string, rest: string)
    ensures Read(ShowString(t) + rest) == Some((Str(t), rest))
  {
    StringReads(t, rest);
    hide ReadString;
  }

  /** What follows an element: the closing bracket, or a comma and the rest. */
  lemma {:induction false} ElementsRead(vs: seq<Json>, rest: string, first: bool)
    requires vs != []
    ensures ReadElements(DumpElements(vs) + "]" + rest, first) == Some((vs, rest))
    decreases vs, 1
  {
    hide Read, Dumps, ShowInt;
    var s := DumpElements(vs) + "]" + rest;
    var tail := if |vs| == 1 then "]" + rest else "," + (DumpElements(vs[1..]) + "]" + rest);
    assert s == Dumps(vs[0]) + tail;
    DumpStart(vs[0]);
    assert s[0] == Dumps(vs[0])[0] != ']';
    assert Ends(tail);
    hide IsDigit, Ends;
    ValueReads(vs[0], tail);
    if |vs| == 1 {
      assert tail[1..] == rest;
      assert vs == [vs[0]];
    } else {
      ElementsRead(vs[1..], rest, false);
      hide DumpElements;
      ElementThenMore(s, first, vs[0], vs[1..], tail, rest);
      assert [vs[0]] + vs[1..] == vs;
    }
  }

  lemma ElementThenMore(s: string, first: bool, v: Json, vs: seq<Json>, tail: string, rest: string)
    requires s != [] && s[0] != ']' && |tail| < |s| && Read(s) == Some((v, tail))
    requires tail == "," + (DumpElements(vs) + "]" + rest)
    requires ReadElements(DumpElements(vs) + "]" + rest, false) == Some((vs, rest))
    ensures ReadElements(s, first) == Some(([v] + vs, rest))
  {
    hide Read, DumpElements;
    assert tail[1..] == DumpElements(vs) + "]" + rest;
  }

  lemma MemberReads(m: Field, tail: string)
    requires Ends(tail)
    ensures var s := ShowString(m.name) + ":" + Dumps(m.value) + tail;
      s[0] == '"' && |tail| < |s| && ReadMember(s) == Some((m, tail))
    decreases m, 1
  {
    var value := Dumps(m.value) + tail;
    var colon := ":" + value;
    var s := ShowString(m.name) + ":" + Dumps(m.value) + tail;
    assert s == ShowString(m.name) + colon;
    assert s[0] == '"';
    StringReads(m.name, colon);
    assert colon[1..] == value;
    hide ShowString, ReadString, Read, Dumps, Ends;
    ValueReads(m.value, tail);
  }

  lemma {:induction false} MembersRead(ms: seq<Field>, rest: string, first: bool)
    requires ms != []
    ensures ReadMembers(DumpMembers(ms) + "}" + rest, first) == Some((ms, rest))
    decreases ms, 2
  {
    hide ReadMembers, ReadMember, Dumps, ShowString, DumpMembers, IsDigit, Ends;
    var s := DumpMembers(ms) + "}" + rest;
    var m, more := ms[0], ms[1..];
    assert ms == [m] + more;
    var tail := MembersTail(more, rest);
    MembersText(ms, rest);
    TailEnds(more, rest);
    MemberReads(m, tail);
    if more == [] {
      assert ms == [m];
      MemberThenEnd(s, first, m, rest);
    } else {
      MembersRead(more, rest, false);
      MemberThenMore(s, first, m, more, tail, rest);
    }
  }

  /** What is printed after the first member. */
  function MembersTail(more: seq<Field>, rest: string): string {
    if more == [] then "}" + rest else "," + (DumpMembers(more) + "}" + rest)
  }

  lemma MembersText(ms: seq<Field>, rest: string)
    requires ms != []
    ensures DumpMembers(ms) + "}" + rest ==
            ShowString(ms[0].name) + ":" + Dumps(ms[0].value) + MembersTail(ms[1..], rest)
  {
    hide Dumps, ShowString;
    var head := ShowString(ms[0].name) + ":" + Dumps(ms[0].value);
    var more := ms[1..];
    if more == [] {
      Regroup(head, [], [], "}", rest);
    } else {
      Regroup(head, ",", DumpMembers(more), "}", rest);
    }
  }

  lemma Regroup(a: string, b: string, c: string, d: string, e: string)
    ensures a + (b + c) + d + e == a + (b + (c + d + e))
    ensures b + (c + d + e) == if b == [] == c then d + e else b + (c + d + e)
  {
    if b == [] == c { assert b + (c + d + e) == d + e; }
  }

  lemma TailEnds(more: seq<Field>, rest: string)
    ensures Ends(MembersTail(more, rest))
  {
    hide DumpMembers;
  }

  lemma MemberThenEnd(s: string, first: bool, m: Field, rest: string)
    requires s != [] && s[0] != '}' && |rest| + 1 < |s| && ReadMember(s) == Some((m, "}" + rest))
    ensures ReadMembers(s, first) == Some(([m], rest))
  {
    hide ReadMember;
    assert ("}" + rest)[1..] == rest;
  }

  lemma MemberThenMore(s: string, first: bool, m: Field, ms: seq<Field>, tail: string, rest: string)
    requires s != [] && s[0] != '}' && |tail| < |s| && ReadMember(s) == Some((m, tail))
    requires tail == "," + (DumpMembers(ms) + "}" + rest)
    requires ReadMembers(DumpMembers(ms) + "}" + rest, false) == Some((ms, rest))
    ensures ReadMembers(s, first) == Some(([m] + ms, rest))
  {
    hide ReadMember, DumpMembers;
    assert tail[1..] == DumpMembers(ms) + "}" + rest;
  }

  // ----- The form of what is printed -----

  /** Printable ASCII other than the quote and the backslash is printed as it is. */
  lemma {:induction false} PrintsPlainly(s: string)
    requires forall i | 0 <= i < |s| :: ' ' <= s[i] <= '~' && s[i] != '"' && s[i] != '\\'
    ensures ShowString(s) == "\"" + s + "\""
  {
    PlainChars(s);
  }

  lemma {:induction false} PlainChars(s: string)
    requires forall i | 0 <= i < |s| :: ' ' <= s[i] <= '~' && s[i] != '"' && s[i] != '\\'
    ensures ShowChars(s) == s
  {
    if s != [] {
      PlainChars(s[1..]);
      assert s == [s[0]] + s[1..];
    }
  }

  /** Every other character has the escape that json.dumps gives it: seven short ones, else four
      lower-case hexadecimal digits, or twice four beyond the BMP. */
  lemma EscapeForms(c: char)
    requires !(' ' <= c <= '~') || c == '"' || c == '\\'
    ensures c == '"' ==> ShowChar(c) == ['\\', '"']
    ensures c == '\\' ==> ShowChar(c) == ['\\', '\\']
    ensures c == '\n' ==> ShowChar(c) == ['\\', 'n']
    ensures c == '\r' ==> ShowChar(c) == ['\\', 'r']
    ensures c == '\t' ==> ShowChar(c) == ['\\', 't']
    ensures c == '\U{c}' ==> ShowChar(c) == ['\\', 'f']
    ensures c == '\U{8}' ==> ShowChar(c) == ['\\', 'b']
    ensures c !in {'"', '\\', '\n', '\r', '\t', '\U{c}', '\U{8}'} ==>
      |ShowChar(c)| == (if c as nat < 0x1_0000 then 6 else 12) &&
      forall i | 0 <= i < |ShowChar(c)| :: if i % 6 == 0 then ShowChar(c)[i] == '\\' else if i % 6 == 1 then ShowChar(c)[i] == 'u'
        else '0' <= ShowChar(c)[i] <= '9' || 'a' <= ShowChar(c)[i] <= 'f'
  {
    hide HexValue, HexDigit;
    forall d: nat | d < 16 ensures '0' <= HexDigit(d) <= '9' || 'a' <= HexDigit(d) <= 'f' { LowerDigit(d); }
  }

  lemma LowerDigit(d: nat)
    requires d < 16
    ensures '0' <= HexDigit(d) <= '9' || 'a' <= HexDigit(d) <= 'f'
  {
  }

  // ----- Printable ASCII only -----

  ghost predicate Printable(s: string) { forall i | 0 <= i < |s| :: ' ' <= s[i] <= '~' }

  lemma CharPrintable(c: char)
    ensures Printable(ShowChar(c))
  {
  }

  lemma {:induction false} StringPrintable(s: string)
    ensures Printable(ShowChars(s))
  {
    hide ShowChar;
    if s != [] {
      CharPrintable(s[0]);
      StringPrintable(s[1..]);
    }
  }

  lemma {:induction false} NumberPrintable(n: nat)
    ensures Printable(Show(n))
  {
    ShowIsCanonical(n);
  }

  /** No raw control character, tab, newline or non-ASCII character is ever printed. */
  lemma {:induction false} DumpPrintable(v: Json)
    ensures Printable(Dumps(v))
    decreases v, 0
  {
    hide ShowChars, Show;
    match v
    case Int(n) => NumberPrintable(if n < 0 then -n else n);
    case Str(s) => StringPrintable(s);
    case Arr(vs) => ElementsPrintable(vs);
    case Obj(ms) => MembersPrintable(ms);
    case _ =>
  }

  lemma {:induction false} ElementsPrintable(vs: seq<Json>)
    ensures Printable(DumpElements(vs))
    decreases vs, 1
  {
    hide Dumps;
    if vs != [] {
      DumpPrintable(vs[0]);
      ElementsPrintable(vs[1..]);
    }
  }

  lemma {:induction false} MembersPrintable(ms: seq<Field>)
    ensures Printable(DumpMembers(ms))
    decreases ms, 1
  {
    hide Dumps, ShowChars;
    if ms != [] {
      StringPrintable(ms[0].name);
      DumpPrintable(ms[0].value);
      MembersPrintable(ms[1..]);
    }
  }
}
