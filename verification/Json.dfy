/** JSON string literals as `serde_json::to_string` writes them. */
module Json {
  import opened Wrappers

  const BACKSLASH: char := '\\'

  predicate NeedsEscape(c: char) { c == '"' || c == BACKSLASH || c as int < 0x20 }

  function HexDigit(n: nat): char
    requires n < 16
  {
    "0123456789abcdef"[n]
  }

  function EscapeChar(c: char): (r: string)
    ensures r != []
    ensures !NeedsEscape(c) ==> r == [c]
    ensures NeedsEscape(c) ==> |r| >= 2 && r[0] == BACKSLASH
    ensures forall x | x in r :: x as int >= 0x20 && (x == '#' ==> c == '#')
    ensures r[|r| - 1] == '"' ==> r == [BACKSLASH, '"'] && c == '"'
  {
    if c == '"' then [BACKSLASH, '"']
    else if c == BACKSLASH then [BACKSLASH, BACKSLASH]
    else if c as int == 8 then [BACKSLASH, 'b']
    else if c as int == 12 then [BACKSLASH, 'f']
    else if c == '\n' then [BACKSLASH, 'n']
    else if c == '\r' then [BACKSLASH, 'r']
    else if c == '\t' then [BACKSLASH, 't']
    else if c as int < 0x20 then
      [BACKSLASH, 'u', '0', '0', HexDigit(c as int / 16), HexDigit(c as int % 16)]
    else [c]
  }

  function Escape(v: string): (r: string)
    ensures forall x | x in r :: x as int >= 0x20 && (x == '#' ==> '#' in v)
    ensures v != [] ==> r != [] && r[0] != '"'
  {
    if v == [] then [] else Escape(v[..|v| - 1]) + EscapeChar(v[|v| - 1])
  }

  function Quote(v: string): (r: string)
    ensures |r| >= 2 && r[0] == '"' && r[|r| - 1] == '"'
    ensures forall x | x in r :: x as int >= 0x20 && (x == '#' ==> '#' in v)
  {
    "\"" + Escape(v) + "\""
  }

  /** Escaping is the identity exactly on strings with nothing to escape, and otherwise lengthens. */
  lemma {:induction false} EscapeLength(v: string)
    ensures |Escape(v)| >= |v|
    ensures (forall x | x in v :: !NeedsEscape(x)) ==> Escape(v) == v
    ensures (exists x | x in v :: NeedsEscape(x)) ==> |Escape(v)| > |v|
  {
    if v != [] {
      var w, c := v[..|v| - 1], v[|v| - 1];
      EscapeLength(w);
      assert v == w + [c];
      if forall x | x in v :: !NeedsEscape(x) {
        assert !NeedsEscape(v[|v| - 1]);
      } else if x :| x in v && NeedsEscape(x) {
        if !NeedsEscape(c) { assert x in w; }
      }
    }
  }

  // ---------- reading string literals back ----------

  function HexValue(c: char): Option<nat> {
    if '0' <= c <= '9' then Some(c as int - '0' as int)
    else if 'a' <= c <= 'f' then Some(c as int - 'a' as int + 10)
    else if 'A' <= c <= 'F' then Some(c as int - 'A' as int + 10)
    else None
  }

  /** The code of four hexadecimal digits. */
  function HexCode(s: string): Option<nat>
    requires |s| == 4
  {
    var a, b, c, d := HexValue(s[0]), HexValue(s[1]), HexValue(s[2]), HexValue(s[3]);
    if a.Some? && b.Some? && c.Some? && d.Some?
    then Some(a.value * 4096 + b.value * 256 + c.value * 16 + d.value) else None
  }

  /** The character of an escape sequence without its backslash, and the length of the sequence. */
  function ReadEscape(s: string): Option<(char, nat)> {
    if s == [] then None
    else if s[0] == '"' || s[0] == BACKSLASH || s[0] == '/' then Some((s[0], 1))
    else if s[0] == 'b' then Some((8 as char, 1))
    else if s[0] == 'f' then Some((12 as char, 1))
    else if s[0] == 'n' then Some(('\n', 1))
    else if s[0] == 'r' then Some(('\r', 1))
    else if s[0] == 't' then Some(('\t', 1))
    else if s[0] == 'u' && |s| >= 5 then
      match HexCode(s[1..5])
      case Some(n) => if n < 0xD800 || 0xE000 <= n < 0x10000 then Some((n as char, 5)) else None
      case None => None
    else None
  }

  /** Reads a string literal whose opening quote was read: its text, and what follows it. */
  function ReadString(s: string): Option<(string, string)>
    decreases |s|
  {
    if s == [] then None
    else if s[0] == '"' then Some(([], s[1..]))
    else
      var next := if s[0] == BACKSLASH then ReadEscape(s[1..]) else Some((s[0], 0));
      if next.None? || 1 + next.value.1 > |s| then None
      else
        match ReadString(s[1 + next.value.1..])
        case None => None
        case Some((text, rest)) => Some(([next.value.0] + text, rest))
  }

  lemma {:induction false} EscapeFront(v: string)
    requires v != []
    ensures Escape(v) == EscapeChar(v[0]) + Escape(v[1..])
  {
    hide EscapeChar;
    if |v| > 1 {
      var w := v[..|v| - 1];
      EscapeFront(w);
      assert v[1..][..|v| - 2] == w[1..];
    } else {
      assert v[..0] == [] && v[1..] == [];
    }
  }

  lemma HexDigitValue(n: nat)
    requires n < 16
    ensures HexValue(HexDigit(n)) == Some(n)
  {
  }

  lemma ReadEscaped(c: char, rest: string)
    requires NeedsEscape(c)
    ensures ReadEscape((EscapeChar(c) + rest)[1..]) == Some((c, |EscapeChar(c)| - 1))
  {
    hide HexCode;
    var e := EscapeChar(c);
    assert (e + rest)[1..] == e[1..] + rest;
    if |e| == 6 { ReadCode(c as int / 16, c as int % 16, rest); }
  }

  lemma ReadCode(x: nat, y: nat, rest: string)
    requires x < 16 && y < 16
    ensures var s := ['u', '0', '0', HexDigit(x), HexDigit(y)] + rest; HexCode(s[1..5]) == Some(16 * x + y)
  {
    hide HexDigit, HexValue;
    var s := ['u', '0', '0', HexDigit(x), HexDigit(y)] + rest;
    var t := s[1..5];
    assert t[0] == '0' && t[1] == '0' && t[2] == HexDigit(x) && t[3] == HexDigit(y);
    HexDigitValue(x);
    HexDigitValue(y);
    ZeroValue();
  }

  lemma ZeroValue()
    ensures HexValue('0') == Some(0)
  {
  }

  /** Reading undoes quoting, for every text and whatever follows the literal. */
  lemma {:induction false} ReadQuoted(v: string, rest: string)
    ensures ReadString(Escape(v) + "\"" + rest) == Some((v, rest))
  {
    hide EscapeChar, ReadEscape;
    var s := Escape(v) + "\"" + rest;
    if v == [] {
      assert s[1..] == rest;
    } else {
      var c, e, tail := v[0], EscapeChar(v[0]), Escape(v[1..]) + "\"" + rest;
      EscapeFront(v);
      assert s == e + tail;
      ReadQuoted(v[1..], rest);
      assert s[|e|..] == tail;
      if NeedsEscape(c) { ReadEscaped(c, tail); }
      assert [c] + v[1..] == v;
    }
  }
}
