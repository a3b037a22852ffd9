/** scripts/extract-navigation-reference.py, `rust_string`: prints a string as a Rust literal,
    against a reader of Rust string literals. */
module RustLiteral {
  import opened Wrappers

  predicate IsHexDigit(c: char) { '0' <= c <= '9' || 'a' <= c <= 'f' || 'A' <= c <= 'F' }

  function HexDigit(d: nat): (c: char)
    requires d < 16
    ensures IsHexDigit(c) && HexValue(c) == d
  {
    if d < 10 then '0' + d as char else 'a' + (d - 10) as char
  }

  function HexValue(c: char): (d: nat)
    requires IsHexDigit(c)
    ensures d < 16
  {
    if c <= '9' then (c - '0') as nat else if c <= 'F' then (c - 'A') as nat + 10 else (c - 'a') as nat + 10
  }

  /** format(n, 'x') */
  function Hex(n: nat): string {
    if n < 16 then [HexDigit(n)] else Hex(n / 16) + [HexDigit(n % 16)]
  }

  predicate IsControl(c: char) { c < ' ' || c == '\U{7f}' }

  function EscapeChar(c: char): string {
    if c == '"' then "\\\""
    else if c == '\\' then "\\\\"
    else if IsControl(c) then "\\u{" + Hex(c as nat) + "}"
    else [c]
  }

  function Escape(value: string): string {
    if value == [] then [] else EscapeChar(value[0]) + Escape(value[1..])
  }

  function RustString(value: string): string { "\"" + Escape(value) + "\"" }

  // ----- Reading a literal -----

  /** Hexadecimal digits up to the closing brace of a \u{...} escape. */
  function ReadHex(s: string, sofar: nat, digits: nat): Option<(nat, string)>
    decreases s, digits
  {
    if s == [] || digits > 6 then None
    else if s[0] == '}' then if digits == 0 then None else Some((sofar, s[1..]))
    else if !IsHexDigit(s[0]) then None
    else ReadHex(s[1..], 16 * sofar + HexValue(s[0]), digits + 1)
  }

  predicate IsScalar(n: nat) { n < 0xD800 || 0xE000 <= n < 0x11_0000 }

  /** One escape, after its backslash. */
  function ReadEscape(s: string): Option<(char, string)> {
    if s == [] then None
    else
      var rest := s[1..];
      match s[0]
      case '"' => Some(('"', rest))
      case '\'' => Some(('\'', rest))
      case '\\' => Some(('\\', rest))
      case 'n' => Some(('\n', rest))
      case 'r' => Some(('\r', rest))
      case 't' => Some(('\t', rest))
      case '0' => Some(('\0', rest))
      case 'x' =>
        if |rest| < 2 || !IsHexDigit(rest[0]) || !IsHexDigit(rest[1]) || HexValue(rest[0]) >= 8 then None
        else Some(((16 * HexValue(rest[0]) + HexValue(rest[1])) as char, rest[2..]))
      case 'u' =>
        if rest == [] || rest[0] != '{' then None
        else
          (match ReadHex(rest[1..], 0, 0)
           case None => None
           case Some((n, after)) => if IsScalar(n) && |after| <= |rest| then Some((n as char, after)) else None)
      case _ => None
  }

  /** Characters and escapes up to the closing quote; a bare carriage return is not allowed.
      The backslash-newline continuation of Rust is not read. */
  function ReadBody(s: string): Option<(string, string)>
    decreases |s|
  {
    if s == [] || s[0] == '\r' then None
    else if s[0] == '"' then Some(([], s[1..]))
    else
      var first := if s[0] == '\\' then ReadEscape(s[1..]) else Some((s[0], s[1..]));
      if first.None? || |first.value.1| >= |s| then None
      else
        match ReadBody(first.value.1)
        case None => None
        case Some((more, rest)) => Some(([first.value.0] + more, rest))
  }

  function ReadLiteral(s: string): Option<(string, string)> {
    if s == [] || s[0] != '"' then None else ReadBody(s[1..])
  }

  // ----- Round trip -----

  lemma HexReads(n: nat, rest: string)
    requires n < 256
    ensures ReadHex(Hex(n) + "}" + rest, 0, 0) == Some((n, rest))
  {
    var s := Hex(n) + "}" + rest;
    if n < 16 {
      assert s[1..] == "}" + rest && s[1..][1..] == rest;
      assert ReadHex(s[1..], n, 1) == Some((n, rest));
    } else {
      assert Hex(n / 16) == [HexDigit(n / 16)];
      assert s[1..] == [HexDigit(n % 16)] + "}" + rest;
      assert s[1..][1..] == "}" + rest && s[1..][1..][1..] == rest;
      assert ReadHex(s[1..][1..], n, 2) == Some((n, rest));
      assert ReadHex(s[1..], n / 16, 1) == Some((n, rest));
    }
  }

  /** Whatever follows, one printed character is read back as itself. */
  lemma CharReads(c: char, rest: string)
    ensures var s := EscapeChar(c) + rest;
      s[0] != '"' && s[0] != '\r' &&
      (if s[0] == '\\' then ReadEscape(s[1..]) else Some((s[0], s[1..]))) == Some((c, rest))
  {
    var s := EscapeChar(c) + rest;
    if c == '"' || c == '\\' {
      assert s[1..] == [c] + rest && s[1..][1..] == rest;
    } else if IsControl(c) {
      var n := c as nat;
      HexReads(n, rest);
      assert s[1..] == "u{" + (Hex(n) + "}" + rest);
      assert s[1..][1..] == "{" + (Hex(n) + "}" + rest);
      assert s[1..][1..][1..] == Hex(n) + "}" + rest;
    } else {
      assert s[1..] == rest;
    }
  }

  lemma {:induction false} BodyReads(value: string, rest: string)
    ensures ReadBody(Escape(value) + "\"" + rest) == Some((value, rest))
  {
    var s := Escape(value) + "\"" + rest;
    if value == [] {
      assert s[1..] == rest;
    } else {
      var tail := Escape(value[1..]) + "\"" + rest;
      assert s == EscapeChar(value[0]) + tail;
      CharReads(value[0], tail);
      BodyReads(value[1..], rest);
      assert |EscapeChar(value[0])| > 0;
      hide ReadEscape, EscapeChar;
      assert [value[0]] + value[1..] == value;
    }
  }

  lemma {:induction false} EscapeAppend(a: string, b: string)
    ensures Escape(a + b) == Escape(a) + Escape(b)
  {
    hide EscapeChar;
    if a == [] {
      assert a + b == b;
    } else {
      assert (a + b)[1..] == a[1..] + b;
      EscapeAppend(a[1..], b);
    }
  }

  /** What needs no escape is printed as it is. */
  lemma {:induction false} PrintsPlainly(value: string)
    requires forall i | 0 <= i < |value| :: value[i] >= ' ' && value[i] !in {'"', '\\', '\U{7f}'}
    ensures Escape(value) == value
  {
    if value != [] {
      PrintsPlainly(value[1..]);
      assert value == [value[0]] + value[1..];
    }
  }

  /** Control characters never appear in a literal. */
  lemma {:induction false} NoControls(value: string)
    ensures forall i | 0 <= i < |RustString(value)| :: RustString(value)[i] >= ' ' && RustString(value)[i] != '\U{7f}'
  {
    EscapeHasNoControls(value);
  }

  lemma {:induction false} EscapeHasNoControls(value: string)
    ensures forall i | 0 <= i < |Escape(value)| :: !IsControl(Escape(value)[i])
  {
    if value != [] {
      if IsControl(value[0]) { HexHasNoControls(value[0] as nat); }
      hide Hex;
      EscapeHasNoControls(value[1..]);
    }
  }

  lemma {:induction false} HexHasNoControls(n: nat)
    ensures forall i | 0 <= i < |Hex(n)| :: !IsControl(Hex(n)[i])
  {
    if n >= 16 { HexHasNoControls(n / 16); }
  }

  /** Reading the printed literal gives the string back and stops exactly at its end, for every
      string and whatever follows. */
  lemma LiteralRoundTrip(value: string, rest: string)
    ensures ReadLiteral(RustString(value) + rest) == Some((value, rest))
  {
    var s := RustString(value) + rest;
    assert s[1..] == Escape(value) + "\"" + rest;
    BodyReads(value, rest);
  }
}
