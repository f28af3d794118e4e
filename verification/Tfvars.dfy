/** The line-oriented tfvars editors and reader of src/apply.rs: specifications and line-level laws.
    A text is edited through its lines, and every editor is a splice: it keeps the lines before the
    first line that assigns the key, puts a replacement there (or at the end), and keeps the rest. */
module Tfvars {
  import opened Wrappers
  import opened Text
  import opened Json

  /** A Terraform variable name. */
  predicate IsIdent(k: string) {
    k != [] && forall c | c in k :: IsAsciiAlphanumeric(c) || c == '_' || c == '-'
  }

  /** The scalar and map editors' test: the key, one space and an equals sign, after any indentation. */
  predicate Matches(line: string, k: string) {
    StartsWith(TrimStart(line), k + " =")
  }

  /** The index of the first line that assigns k, or |ls|. */
  function FirstMatch(ls: seq<string>, k: string): (r: nat)
    ensures r <= |ls|
    ensures r < |ls| ==> Matches(ls[r], k)
    ensures forall i | 0 <= i < r :: !Matches(ls[i], k)
  {
    First(ls, l => Matches(l, k))
  }

  lemma FirstMatchIs(ls: seq<string>, k: string, n: nat)
    requires n <= |ls|
    requires forall i | 0 <= i < n :: !Matches(ls[i], k)
    requires n < |ls| ==> Matches(ls[n], k)
    ensures FirstMatch(ls, k) == n
  {
    hide Matches;
    assert n < |ls| ==> Matches(ls[n], k);
  }

  function Drop(ls: seq<string>, n: nat): seq<string> {
    if n <= |ls| then ls[n..] else []
  }

  // ---------- the scalar editor ----------

  function RenderScalar(k: string, v: string): string { k + " = " + Quote(v) }

  function SetLine(ls: seq<string>, k: string, line: string): seq<string> {
    var i := FirstMatch(ls, k);
    ls[..i] + [line] + Drop(ls, i + 1)
  }

  /** The text that `replace_tfvars_assignment` leaves. */
  function Replace(c: string, k: string, v: string): string {
    Unlines(SetLine(Lines(c), k, RenderScalar(k, v)))
  }

  // ---------- the reader ----------

  /** What one line is to the reader: nothing, an assignment, or a line on which it gives up. */
  datatype View = Skipped | Opaque | Bind(key: string, value: string)

  /** The value part: cut at `#`, trimmed, and stripped of quotes at both ends. */
  function Value(rhs: string): string {
    TrimBoth(Trim(rhs[..IndexOf(rhs, '#')]), IsQuote)
  }

  function ParseTrimmed(t: string): View {
    if t == [] || t[0] == '#' || StartsWith(t, "//") then Skipped
    else
      var i := IndexOf(t, '=');
      if i == |t| then Opaque else Bind(Trim(t[..i]), Value(t[i + 1..]))
  }

  function Parse(line: string): View { ParseTrimmed(Trim(line)) }

  /** How far the search for a key has come after some lines. */
  datatype Search = Passed | Stopped | Found(value: string) {
    function ToOption(): Option<string> { if Found? then Some(value) else None }
  }

  function ScanLine(line: string, k: string): Search {
    match Parse(line)
    case Skipped => Passed
    case Opaque => Stopped
    case Bind(key, v) => if key == k then Found(v) else Passed
  }

  function Scan(ls: seq<string>, k: string): Search {
    if ls == [] then Passed
    else if ScanLine(ls[0], k).Passed? then Scan(ls[1..], k)
    else ScanLine(ls[0], k)
  }

  /** What `read_tfvars_assignment` returns. */
  function Read(c: string, k: string): Option<string> { Scan(Lines(c), k).ToOption() }

  lemma {:induction false} ScanConcat(a: seq<string>, b: seq<string>, k: string)
    ensures Scan(a + b, k) == if Scan(a, k).Passed? then Scan(b, k) else Scan(a, k)
  {
    if a == [] {
      assert a + b == b;
    } else {
      assert (a + b)[1..] == a[1..] + b;
      ScanConcat(a[1..], b, k);
    }
  }

  // ---------- single lines ----------

  /** A line the editors recognise is, for the reader, an assignment to the same key. */
  lemma MatchingLineBinds(l: string, k: string)
    requires IsIdent(k) && Matches(l, k)
    ensures Parse(l).Bind? && Parse(l).key == k
  {
    var s := TrimStart(l);
    var t := TrimEnd(s);
    var p := k + " =";
    assert p <= s;
    assert |p| <= |t| by {
      assert p[|k| + 1] == '=' && s[|k| + 1] == '=';
    }
    assert p <= t;
    assert t[0] == k[0] && k[0] in k;
    assert forall i | 0 <= i <= |k| :: t[i] == p[i];
    IdentThenEquals(t, k);
  }

  /** A trimmed line that begins with the key, a space and `=` parses as an assignment to the key. */
  lemma IdentThenEquals(t: string, k: string)
    requires IsIdent(k) && k + " =" <= t
    ensures IndexOf(t, '=') == |k| + 1
    ensures ParseTrimmed(t) == Bind(k, Value(t[|k| + 2..]))
  {
    hide TrimBoth, Value, IndexOf;
    var p := k + " =";
    forall i | 0 <= i < |k| + 1 ensures t[i] != '=' {
      assert t[i] == p[i];
      if i < |k| { assert k[i] in k; }
    }
    assert t[|k| + 1] == p[|k| + 1];
    IndexOfIs(t, '=', |k| + 1);
    assert t[0] == k[0] && k[0] in k;
    assert Trim(t[..|k| + 1]) == k by {
      var u := t[..|k| + 1];
      assert u == k + " ";
      assert u[|k| - 1] == k[|k| - 1] && k[|k| - 1] in k;
      TrimBothAt(u, IsSpace, 0, |k|);
    }
  }

  /** No line is an assignment to two keys. */
  lemma MatchesOneKey(l: string, j: string, k: string)
    requires IsIdent(j) && IsIdent(k) && Matches(l, j) && Matches(l, k)
    ensures j == k
  {
    MatchingLineBinds(l, j);
    MatchingLineBinds(l, k);
  }

  lemma KeyLineMatches(k: string, rest: string)
    requires IsIdent(k)
    ensures Matches(k + " =" + rest, k)
  {
    var l := k + " =" + rest;
    assert l[0] == k[0] && k[0] in k;
    TrimLeftIs(l, IsSpace, 0);
  }

  /** How a key is followed by its value on a scalar line, and that nothing pads the line. */
  lemma ScalarLineShape(k: string, v: string)
    requires IsIdent(k)
    ensures RenderScalar(k, v) == k + " =" + (" " + Quote(v))
    ensures Trim(RenderScalar(k, v)) == RenderScalar(k, v)
    ensures OneLine(RenderScalar(k, v)) && !EndsInCr(RenderScalar(k, v))
  {
    hide TrimBoth, Quote;
    var q := Quote(v);
    var l := RenderScalar(k, v);
    assert l[0] == k[0] && k[0] in k;
    assert l[|l| - 1] == q[|q| - 1];
    TrimBothAt(l, IsSpace, 0, |l|);
    assert l[0..|l|] == l;
    assert k + (" = " + q) == l;
    IdentOneLine(k, " = " + q);
  }

  lemma ScalarLine(k: string, v: string)
    requires IsIdent(k)
    ensures Matches(RenderScalar(k, v), k)
    ensures Parse(RenderScalar(k, v)) == Bind(k, Value(" " + Quote(v)))
    ensures OneLine(RenderScalar(k, v)) && !EndsInCr(RenderScalar(k, v))
  {
    hide TrimBoth, Quote, Value, ParseTrimmed, Matches, IsIdent;
    var l, rest := RenderScalar(k, v), " " + Quote(v);
    ScalarLineShape(k, v);
    KeyLineMatches(k, rest);
    IdentThenEquals(l, k);
    assert l[|k| + 2..] == rest;
  }

  lemma IdentOneLine(k: string, rest: string)
    requires IsIdent(k) && OneLine(rest)
    ensures OneLine(k + rest)
  {
    var l := k + rest;
    forall i | 0 <= i < |l| ensures l[i] != '\n' {
      if i < |k| { assert k[i] in k; } else { assert rest[i - |k|] in rest; }
    }
  }

  /** A value that survives being written and read back: nothing in it is escaped or cut off. */
  predicate Plain(v: string) { forall c | c in v :: !NeedsEscape(c) && c != '#' }

  /** The reader undoes the quoting of a value exactly when the value is plain. */
  lemma ReadBackValue(v: string)
    ensures Value(" " + Quote(v)) == v <==> Plain(v)
  {
    if '#' in v {
      ValueHasNoHash(" " + Quote(v));
    } else {
      ValueOfQuoted(v);
      StripQuotes(v);
    }
  }

  lemma ValueHasNoHash(rhs: string)
    ensures '#' !in Value(rhs)
  {
    hide TrimBoth;
    var r := rhs[..IndexOf(rhs, '#')];
    var t := Trim(r);
    var a, b := TrimBothSpan(r, IsSpace);
    var x, y := TrimBothSpan(t, IsQuote);
    forall i | x <= i < y ensures t[i] != '#' { assert t[i] == r[a + i]; }
  }

  lemma ValueOfQuoted(v: string)
    requires '#' !in v
    ensures Value(" " + Quote(v)) == TrimBoth(Quote(v), IsQuote)
  {
    var q := Quote(v);
    var rhs := " " + q;
    forall i | 0 <= i < |rhs| ensures rhs[i] != '#' { if i > 0 { assert rhs[i] in q; } }
    IndexOfIs(rhs, '#', |rhs|);
    assert rhs[..|rhs|] == rhs;
    TrimBothAt(rhs, IsSpace, 1, |rhs|);
    assert rhs[1..|rhs|] == q;
  }

  /** Stripping the quotes of a literal gives the value back exactly when nothing was escaped. */
  lemma StripQuotes(v: string)
    ensures TrimBoth(Quote(v), IsQuote) == v <==> forall c | c in v :: !NeedsEscape(c)
  {
    hide TrimBoth, Escape;
    var e := Escape(v);
    EscapeLength(v);
    StripQuotesText(v);
    if v != [] && e[|e| - 1] == '"' {
      EscapedQuoteAtEnd(v);
      assert e[..|e| - 1][|e| - 2] == BACKSLASH;
      assert v[|v| - 1] in v;
    }
  }

  lemma StripQuotesText(v: string)
    ensures var e := Escape(v);
            TrimBoth(Quote(v), IsQuote) == if v != [] && e[|e| - 1] == '"' then e[..|e| - 1] else e
  {
    hide TrimBoth, Escape;
    var e, q := Escape(v), Quote(v);
    EscapeLength(v);
    if v == [] {
      EscapeEmpty();
      TrimBothEmpty(q, IsQuote);
    } else if e[|e| - 1] != '"' {
      TrimBothAt(q, IsQuote, 1, |q| - 1);
      assert q[1..|q| - 1] == e;
    } else {
      EscapedQuoteAtEnd(v);
      TrimBothAt(q, IsQuote, 1, |q| - 2);
      assert q[1..|q| - 2] == e[..|e| - 1];
    }
  }

  lemma EscapeEmpty()
    ensures Escape([]) == []
  {
  }

  lemma EscapedQuoteAtEnd(v: string)
    requires v != [] && Escape(v)[|Escape(v)| - 1] == '"'
    ensures v[|v| - 1] == '"'
    ensures |Escape(v)| >= 2 && Escape(v)[|Escape(v)| - 2] == BACKSLASH
  {
    var w, c := v[..|v| - 1], v[|v| - 1];
    var e := EscapeChar(c);
    assert Escape(v) == Escape(w) + e;
    assert e[|e| - 1] == '"';
  }

  /** What a reader can return: no `#`, and no quote at the end. */
  predicate IsReadable(v: string) { '#' !in v && (v != [] ==> v[|v| - 1] != '"') }

  lemma ValueIsReadable(rhs: string)
    ensures IsReadable(Value(rhs))
  {
    hide TrimBoth;
    ValueHasNoHash(rhs);
    var t := Trim(rhs[..IndexOf(rhs, '#')]);
    var x, y := TrimBothSpan(t, IsQuote);
  }

  lemma {:induction false} ScanIsReadable(ls: seq<string>, k: string)
    ensures Scan(ls, k).Found? ==> IsReadable(Scan(ls, k).value)
  {
    hide IsReadable, Value, TrimBoth;
    if ls != [] {
      ScanIsReadable(ls[1..], k);
      var t := Trim(ls[0]);
      if ScanLine(ls[0], k).Found? { ValueIsReadable(t[IndexOf(t, '=') + 1..]); }
    }
  }

  /** The editor escapes and the reader does not take escapes back: a value that was read and needs an
      escape comes back longer, and again needs one. */
  lemma EscapeGrows(v: string)
    requires IsReadable(v) && !Plain(v)
    ensures Value(" " + Quote(v)) == Escape(v) && |Escape(v)| > |v|
    ensures IsReadable(Escape(v)) && !Plain(Escape(v)) && Trim(Escape(v)) != []
  {
    hide TrimBoth, Escape, Value;
    ValueOfQuoted(v);
    StripQuotesText(v);
    EscapeLength(v);
    var c :| c in v && NeedsEscape(c);
    var e := Escape(v);
    if e != [] && e[|e| - 1] == '"' && v != [] { EscapedQuoteAtEnd(v); }
    EscapeHasBackslash(v);
    var a, b := TrimBothSpan(e, IsSpace);
    var i :| 0 <= i < |e| && e[i] == BACKSLASH;
    assert !IsSpace(e[i]);
  }

  lemma {:induction false} EscapeHasBackslash(v: string)
    requires exists c | c in v :: NeedsEscape(c)
    ensures BACKSLASH in Escape(v)
  {
    var w, c := v[..|v| - 1], v[|v| - 1];
    assert v == w + [c];
    if NeedsEscape(c) {
      assert EscapeChar(c)[0] == BACKSLASH;
    } else {
      var x :| x in v && NeedsEscape(x);
      assert x in w;
      EscapeHasBackslash(w);
    }
  }

  // ---------- carriage returns do not matter to matching or reading ----------

  lemma MatchesStripCr(l: string, k: string)
    requires IsIdent(k)
    ensures Matches(StripCr(l), k) == Matches(l, k)
  {
    hide TrimLeft;
    if EndsInCr(l) {
      var m := StripCr(l);
      var t := TrimStart(l);
      if t == [] {
        TrimLeftIs(m, IsSpace, |m|);
      } else {
        var n := |l| - |t|;
        assert n < |m| by { assert !IsSpace(l[n]); }
        TrimLeftIs(m, IsSpace, n);
        assert TrimStart(m) == t[..|t| - 1];
        var p := k + " =";
        assert p[|p| - 1] == '=' && t[|t| - 1] == '\r';
      }
    }
  }

  lemma ScanLineStripCr(l: string, k: string)
    ensures ScanLine(StripCr(l), k) == ScanLine(l, k)
  {
    hide TrimBoth, ParseTrimmed;
    TrimStripCr(l);
  }

  lemma {:induction false} ScanStripCrs(ls: seq<string>, k: string)
    ensures Scan(StripCrs(ls), k) == Scan(ls, k)
  {
    if ls != [] {
      ScanLineStripCr(ls[0], k);
      assert StripCrs(ls)[1..] == StripCrs(ls[1..]);
      ScanStripCrs(ls[1..], k);
    }
  }

  lemma FirstMatchStripCrs(ls: seq<string>, k: string)
    requires IsIdent(k)
    ensures FirstMatch(StripCrs(ls), k) == FirstMatch(ls, k)
  {
    forall i | 0 <= i < |ls| ensures Matches(StripCrs(ls)[i], k) == Matches(ls[i], k) {
      MatchesStripCr(ls[i], k);
    }
    FirstMatchIs(StripCrs(ls), k, FirstMatch(ls, k));
  }
}
