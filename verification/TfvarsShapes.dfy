/** The shapes of lines: what the editors and the reader take a line for, told from how it is written, and
    which lines of a text an edit replaces. */
module TfvarsShapes {
  import opened Wrappers
  import opened Text
  import opened Tfvars
  import opened TfvarsMap
  import opened TfvarsMapLaws

  /** Nothing but white space. */
  predicate IsGap(s: string) { forall i | 0 <= i < |s| :: IsSpace(s[i]) }

  // ---------- a text and its lines ----------

  /** Every text is some lines with line feeds and a rest without one. One carriage return goes with each
      line feed; a rest is a line as it is, and no line if it is empty. */
  lemma {:induction false} LinesOfText(ls: seq<string>, rest: string)
    requires (forall l | l in ls :: OneLine(l)) && OneLine(rest)
    ensures Lines(Unlines(ls) + rest) == StripCrs(ls) + if rest == [] then [] else [rest]
  {
    hide Unlines, StripCr;
    if ls == [] {
      NoLines(rest);
      IndexOfIs(rest, '\n', |rest|);
    } else {
      UnlinesHead(ls);
      var c := Unlines(ls) + rest;
      assert ls[0] in ls && c[|ls[0]|] == '\n';
      IndexOfIs(c, '\n', |ls[0]|);
      assert c[..|ls[0]|] == ls[0] && c[|ls[0]| + 1..] == Unlines(ls[1..]) + rest;
      LinesOfText(ls[1..], rest);
    }
  }

  lemma NoLines(rest: string)
    ensures Unlines([]) + rest == rest
  {
  }

  lemma UnlinesHead(ls: seq<string>)
    requires ls != []
    ensures Unlines(ls) == ls[0] + "\n" + Unlines(ls[1..])
  {
  }

  // ---------- what the editors take for an assignment ----------

  /** A line without the white space it begins with. */
  lemma StartShape(line: string, pad: string, s: string)
    requires line == pad + s && IsGap(pad) && (s != [] ==> !IsSpace(s[0]))
    ensures TrimStart(line) == s
  {
    hide TrimLeft, IsSpace;
    assert forall i | 0 <= i < |pad| :: line[i] == pad[i];
    TrimLeftIs(line, IsSpace, |pad|);
    assert line[|pad|..] == s;
  }

  /** Scalar and map editor: after any white space the key, one space and an equals sign. */
  lemma MatchesExact(line: string, k: string)
    requires IsIdent(k)
    ensures Matches(line, k) <==> exists n: nat | n <= |line| :: IsGap(line[..n]) && k + " =" <= line[n..]
  {
    hide TrimLeft, IsSpace;
    StartExact(line, k, k + " =");
  }

  /** Literal editor: one more space after it. */
  lemma LitMatchesExact(line: string, k: string)
    requires IsIdent(k)
    ensures LitMatches(line, k) <==> exists n: nat | n <= |line| :: IsGap(line[..n]) && k + " = " <= line[n..]
  {
    hide TrimLeft, IsSpace;
    StartExact(line, k, k + " = ");
  }

  lemma StartExact(line: string, k: string, p: string)
    requires IsIdent(k) && k <= p
    ensures p <= TrimStart(line) <==> exists n: nat | n <= |line| :: IsGap(line[..n]) && p <= line[n..]
  {
    hide TrimLeft, IsSpace;
    var s := TrimStart(line);
    assert IsGap(line[..|line| - |s|]);
    if n: nat :| n <= |line| && IsGap(line[..n]) && p <= line[n..] {
      assert line[n] == p[0] == k[0];
      KeyIsNoSpace(k);
      assert line == line[..n] + line[n..];
      StartShape(line, line[..n], line[n..]);
    }
  }

  lemma KeyIsNoSpace(k: string)
    requires IsIdent(k)
    ensures k != [] && !IsSpace(k[0]) && !IsSpace(k[|k| - 1]) && '=' !in k && k[0] != '#' && k[0] != '/'
  {
    assert k[0] in k && k[|k| - 1] in k;
  }

  /** A map goes on below its header if that ends in an opening brace, with no closing one before it. */
  lemma OpensExact(line: string)
    ensures OpensBlock(line) <==> line != [] && line[|line| - 1] == '{' && '}' !in line
  {
    hide TrimLeft;
    var t := TrimStart(line);
    var n := |line| - |t|;
    assert line == line[..n] + t;
    forall i | 0 <= i < n ensures line[i] != '}' && line[i] != '{' { BraceIsNoSpace(line[i]); }
    assert '}' in t ==> '}' in line;
  }

  lemma BraceIsNoSpace(c: char)
    requires IsSpace(c)
    ensures c !in "{}[]\"#="
  {
  }

  /** It ends at the first line that is a closing brace after white space. */
  lemma CloseExact(line: string)
    ensures IsClose(line) <==> exists pad :: IsGap(pad) && line == pad + "}"
  {
    hide TrimLeft, IsSpace;
    if IsClose(line) {
      assert IsGap(line[..|line| - 1]) && line == line[..|line| - 1] + "}";
    }
    if pad :| IsGap(pad) && line == pad + "}" {
      assert !IsSpace('}') by { BraceStands(); }
      StartShape(line, pad, "}");
    }
  }

  lemma BraceStands()
    ensures !IsSpace('}') && !IsSpace('{') && !IsSpace('[') && !IsSpace(']')
  {
  }

  /** The literal editor also takes brackets, and white space after them. */
  lemma LitOpensExact(line: string)
    ensures LitOpens(line) <==> exists n: nat | n < |line| :: line[n] in "{[" && IsGap(line[n + 1..])
  {
    hide TrimRight, IsSpace;
    var t := TrimEnd(line);
    if LitOpens(line) {
      var n := |t| - 1;
      assert line[n] == t[n] && t[n..][0] == t[n];
      assert IsGap(line[n + 1..]);
    }
    if n: nat :| n < |line| && line[n] in "{[" && IsGap(line[n + 1..]) {
      BraceStands();
      assert forall i | n + 1 <= i < |line| :: line[i] == line[n + 1..][i - (n + 1)];
      TrimRightIs(line, IsSpace, n + 1);
      assert line[..n + 1][n..] == [line[n]];
    }
  }

  lemma LitCloseExact(line: string)
    ensures LitCloses(line) <==>
            exists a, b :: IsGap(a) && IsGap(b) && (line == a + "}" + b || line == a + "]" + b)
  {
    hide TrimBoth, IsSpace;
    BraceStands();
    var x, y := TrimBothSpan(line, IsSpace);
    if LitCloses(line) {
      assert line == line[..x] + line[x..y] + line[y..];
      assert IsGap(line[..x]) && IsGap(line[y..]);
    }
    if a, b :| IsGap(a) && IsGap(b) && (line == a + "}" + b || line == a + "]" + b) {
      var n := |a|;
      assert forall i | 0 <= i < n :: line[i] == a[i];
      assert forall i | n + 1 <= i < |line| :: line[i] == b[i - (n + 1)];
      TrimBothAt(line, IsSpace, n, n + 1);
      assert line[n..n + 1] == [line[n]];
    }
  }

  // ---------- what the reader takes for an assignment ----------

  /** A line as someone would write it: a key, a value in quotes or bare, and maybe a comment, with any
      white space around them. It is read as this key and this value. */
  lemma WrittenByHand(a: string, k: string, b: string, c: string, v: string, quoted: bool, d: string, comment: string)
    requires IsGap(a) && IsGap(b) && IsGap(c) && IsGap(d) && IsIdent(k) && '#' !in v && '"' !in v
    requires !quoted ==> v == [] || (!IsSpace(v[0]) && !IsSpace(v[|v| - 1]))
    requires comment != [] ==> comment[0] == '#'
    ensures var q := if quoted then "\"" + v + "\"" else v;
            Parse(a + k + b + "=" + c + q + d + comment) == Bind(k, v)
  {
    hide TrimBoth, IsSpace, IsIdent, IndexOf;
    var q := if quoted then "\"" + v + "\"" else v;
    var rhs := c + q + d + comment;
    KeyIsNoSpace(k);
    var line := a + (k + b + "=" + rhs);
    assert line == a + k + b + "=" + c + q + d + comment;
    var y := TrimmedLine(a, k, b, rhs);
    var t := k + b + "=" + rhs[..y];
    LeftSide(k, b, rhs[..y]);
    QuotedEnds(v, quoted);
    RightSide(c, q, d, comment, y);
    QuotesOff(v, quoted);
  }

  /** Trimming cuts white space before the key, and some at the end. */
  lemma TrimmedLine(a: string, k: string, b: string, rhs: string) returns (y: nat)
    requires IsGap(a) && IsIdent(k)
    ensures y <= |rhs| && IsGap(rhs[y..]) && Trim(a + (k + b + "=" + rhs)) == k + b + "=" + rhs[..y]
  {
    hide TrimLeft, TrimRight, IsSpace, IsIdent;
    KeyIsNoSpace(k);
    EqualsStands();
    var head := k + b + "=";
    var s := head + rhs;
    assert s[0] == k[0];
    StartShape(a + s, a, s);
    y := EndAfter(head, rhs);
  }

  lemma EndAfter(head: string, rhs: string) returns (y: nat)
    requires head != [] && !IsSpace(head[|head| - 1])
    ensures y <= |rhs| && IsGap(rhs[y..]) && TrimEnd(head + rhs) == head + rhs[..y]
  {
    hide TrimRight, IsSpace;
    var s, n := head + rhs, |head|;
    var u := TrimEnd(s);
    assert s[n - 1] == head[n - 1];
    y := |u| - n;
    assert forall i | 0 <= i < |rhs| :: s[n + i] == rhs[i];
  }

  lemma EqualsStands()
    ensures !IsSpace('=') && !IsSpace('"') && !IsSpace('#')
  {
  }

  lemma LeftSide(k: string, b: string, r: string)
    requires IsIdent(k) && IsGap(b)
    ensures ParseTrimmed(k + b + "=" + r) == Bind(k, Value(r))
  {
    hide TrimBoth, IsSpace, IsIdent, Value, IndexOf;
    KeyIsNoSpace(k);
    var t, n := k + b + "=" + r, |k| + |b|;
    EqualsStands();
    forall i | 0 <= i < n ensures t[i] != '=' {
      if i < |k| { assert t[i] == k[i] && k[i] in k; } else { assert t[i] == b[i - |k|]; }
    }
    IndexOfIs(t, '=', n);
    assert t[0] == k[0] && t[..n] == k + b && t[n + 1..] == r;
    assert forall i | |k| <= i < n :: (k + b)[i] == b[i - |k|];
    TrimBothAt(k + b, IsSpace, 0, |k|);
    assert (k + b)[0..|k|] == k;
  }

  /** The value begins after white space and ends before white space, or the comment. */
  lemma RightSide(c: string, q: string, d: string, comment: string, y: nat)
    requires IsGap(c) && IsGap(d) && '#' !in q && (comment != [] ==> comment[0] == '#')
    requires q != [] ==> !IsSpace(q[0]) && !IsSpace(q[|q| - 1])
    requires var rhs := c + q + d + comment; y <= |rhs| && IsGap(rhs[y..])
    ensures Value((c + q + d + comment)[..y]) == TrimBoth(q, IsQuote)
  {
    hide TrimBoth, IsSpace, IndexOf;
    EqualsStands();
    var rhs, n := c + q + d + comment, |c + q + d|;
    var r := rhs[..y];
    var h := if y < n then y else n;
    TailAt(rhs, y, n);
    assert comment != [] ==> n < y;
    forall i | 0 <= i < h ensures r[i] != '#' { NoHash(c, q, d, i); assert r[i] == (c + q + d)[i]; }
    if n < y { assert r[n] == comment[0]; }
    IndexOfIs(r, '#', h);
    assert r[..h] == (c + q + d)[..h];
    forall i | h <= i < n ensures IsSpace((c + q + d)[i]) { TailAt(rhs, y, i); }
    Core(c, q, d, h);
  }

  lemma TailAt(s: string, y: nat, n: nat)
    requires y <= |s|
    ensures y <= n < |s| ==> s[y..][n - y] == s[n]
  {
  }

  lemma NoHash(c: string, q: string, d: string, i: nat)
    requires IsGap(c) && IsGap(d) && '#' !in q && i < |c + q + d|
    ensures (c + q + d)[i] != '#'
  {
    hide IsSpace;
    EqualsStands();
    var s := c + q + d;
    assert s[i] == if i < |c| then c[i] else if i < |c| + |q| then q[i - |c|] else d[i - |c| - |q|];
  }

  lemma Core(c: string, q: string, d: string, h: nat)
    requires IsGap(c) && IsGap(d) && h <= |c + q + d|
    requires q != [] ==> !IsSpace(q[0]) && !IsSpace(q[|q| - 1])
    requires forall i | h <= i < |c + q + d| :: IsSpace((c + q + d)[i])
    ensures Trim((c + q + d)[..h]) == q
  {
    hide TrimBoth, IsSpace;
    var s := c + q + d;
    var t, e := s[..h], |c| + |q|;
    assert forall i | 0 <= i < |c| :: s[i] == c[i];
    assert forall i | e <= i < |s| :: s[i] == d[i - e];
    if q == [] {
      TrimBothEmpty(t, IsSpace);
    } else {
      assert s[e - 1] == q[|q| - 1] && s[|c|] == q[0];
      assert e <= h;
      TrimBothAt(t, IsSpace, |c|, e);
      assert t[|c|..e] == q by {
        forall i | 0 <= i < |q| ensures t[|c|..e][i] == q[i] { assert s[|c| + i] == (q + d)[i]; }
      }
    }
  }

  lemma QuotedEnds(v: string, quoted: bool)
    requires '#' !in v && (!quoted ==> v == [] || (!IsSpace(v[0]) && !IsSpace(v[|v| - 1])))
    ensures var q := if quoted then "\"" + v + "\"" else v;
            '#' !in q && (q != [] ==> !IsSpace(q[0]) && !IsSpace(q[|q| - 1]))
  {
    hide IsSpace;
    EqualsStands();
  }

  lemma QuotesOff(v: string, quoted: bool)
    requires '"' !in v
    ensures TrimBoth(if quoted then "\"" + v + "\"" else v, IsQuote) == v
  {
    hide TrimBoth;
    var q := if quoted then "\"" + v + "\"" else v;
    if v == [] {
      TrimBothEmpty(q, IsQuote);
    } else {
      var n := if quoted then 1 else 0;
      assert q[n] == v[0] && q[n + |v| - 1] == v[|v| - 1];
      assert v[0] in v && v[|v| - 1] in v;
      TrimBothAt(q, IsQuote, n, n + |v|);
      assert q[n..n + |v|] == v;
    }
  }

  /** Blank lines and comments of both kinds are passed over; a line that is neither and has no equals sign
      ends every search. */
  lemma OtherLines(line: string, k: string)
    ensures var t := Trim(line);
            var passed := t == [] || "#" <= t || "//" <= t;
            (passed ==> ScanLine(line, k) == Passed) && (!passed && '=' !in t ==> ScanLine(line, k) == Stopped)
  {
    hide TrimBoth, Value;
  }

  // ---------- which lines an edit replaces ----------

  /** Which lines go: those of a map that goes on below its header down to the first closing line, or down to
      the end of the text if there is none; and of any other line that line alone. */
  predicate Goes(gone: seq<string>, below: seq<string>, opens: bool, closes: string -> bool) {
    gone != [] &&
    if opens then EndsAtClose(gone[1..], closes) || (below == [] && NoneCloses(gone[1..], closes)) else |gone| == 1
  }

  /** The map editor, for every text: the map takes the place of the lines that go, whatever stands in them,
      and comes last in a text without a line for the key. Everything else is kept. */
  lemma ReplacedMap(c: string, k: string, m: Entries, above: seq<string>, gone: seq<string>, below: seq<string>)
    requires IsIdent(k) && Lines(c) == above + gone + below && forall i | 0 <= i < |above| :: !Matches(above[i], k)
    requires (gone == [] && below == []) ||
             (gone != [] && Matches(gone[0], k) && Goes(gone, below, OpensBlock(gone[0]), IsClose))
    ensures Lines(ReplaceMap(c, k, m)) == StripCrs(above + Block(k, m) + below)
  {
    hide Lines, Block, Matches, IsIdent, IsClose, OpensBlock, StripCrs, ReplaceMap, FirstMatch, KeptBelow, Goes;
    var ls, n := Lines(c), |above|;
    LinesOfSetBlock(c, k, m);
    assert gone != [] ==> ls[n] == gone[0];
    FirstMatchIs(ls, k, n);
    assert ls[..n] == above;
    if gone == [] { NothingKept(ls); } else { KeptIs(above, gone, below); }
  }

  lemma NothingKept(ls: seq<string>)
    ensures KeptBelow(ls, |ls|) == []
  {
  }

  lemma KeptIs(above: seq<string>, gone: seq<string>, below: seq<string>)
    requires gone != [] && Goes(gone, below, OpensBlock(gone[0]), IsClose)
    ensures KeptBelow(above + gone + below, |above|) == below
  {
    hide IsClose, OpensBlock, First, EndsAtClose, NoneCloses;
    var ls := above + gone + below;
    assert ls[|above|] == gone[0] && ls[|above| + 1..] == gone[1..] + below;
    if OpensBlock(gone[0]) { FirstClose(gone[1..], below, IsClose); }
  }

  lemma LitKeptIs(above: seq<string>, gone: seq<string>, below: seq<string>)
    requires gone != [] && Goes(gone, below, LitOpens(gone[0]), LitCloses)
    ensures LitKeptBelow(above + gone + below, |above|) == below
  {
    hide LitCloses, LitOpens, First, EndsAtClose, NoneCloses, Drop;
    var ls, n := above + gone + below, |above|;
    var rest := ls[n + 1..];
    assert ls[n] == gone[0] && rest == gone[1..] + below;
    if LitOpens(gone[0]) {
      FirstClose(gone[1..], below, LitCloses);
      DropBelow(ls, n + 1, First(rest, LitCloses) + 1);
    }
  }

  /** The same of the literal editor with its own tests, but for a blank line: one comes before the map if the
      text has no line for the key and does not end in a line feed, and one at the end of all is dropped. */
  lemma ReplacedLiteral(c: string, k: string, m: Entries, above: seq<string>, gone: seq<string>, below: seq<string>)
    requires IsIdent(k) && Lines(c) == above + gone + below && forall i | 0 <= i < |above| :: !LitMatches(above[i], k)
    requires (gone == [] && below == []) ||
             (gone != [] && LitMatches(gone[0], k) && Goes(gone, below, LitOpens(gone[0]), LitCloses))
    ensures var blank := if gone == [] && Unterminated(c) then [""] else [];
            var all, ls := above + blank + LongBlock(k, m) + below, Lines(ReplaceLiteral(c, k, RenderMap(m)));
            StripCrs(all) == if all[|all| - 1] == "" then ls + [""] else ls
  {
    hide Lines, LongBlock, LitMatches, IsIdent, LitCloses, LitOpens, StripCrs, ReplaceLiteral, LitFirst, RenderMap;
    hide LitKeptBelow, Goes, Unterminated;
    var ls, n := Lines(c), |above|;
    LinesOfLiteral(c, k, m);
    assert gone != [] ==> ls[n] == gone[0];
    LitFirstIs(ls, k, n);
    assert ls[..n] == above;
    if gone == [] { assert ls == above; } else { LitKeptIs(above, gone, below); }
  }

  lemma DropBelow(ls: seq<string>, a: nat, b: nat)
    requires a <= |ls|
    ensures Drop(ls, a + b) == Drop(ls[a..], b)
  {
  }

  predicate NoneCloses(ls: seq<string>, closes: string -> bool) { forall i | 0 <= i < |ls| :: !closes(ls[i]) }

  predicate EndsAtClose(ls: seq<string>, closes: string -> bool) {
    ls != [] && closes(ls[|ls| - 1]) && NoneCloses(ls[..|ls| - 1], closes)
  }

  lemma FirstClose(gone: seq<string>, below: seq<string>, closes: string -> bool)
    requires EndsAtClose(gone, closes) || (below == [] && NoneCloses(gone, closes))
    ensures First(gone + below, closes) == (if EndsAtClose(gone, closes) then |gone| - 1 else |gone|)
    ensures Drop(gone + below, First(gone + below, closes) + 1) == below
  {
    hide First;
    var ls := gone + below;
    if EndsAtClose(gone, closes) {
      forall i | 0 <= i < |gone| - 1 ensures !closes(ls[i]) { assert ls[i] == gone[..|gone| - 1][i]; }
      FirstIs(ls, closes, |gone| - 1);
    } else {
      FirstIs(ls, closes, |ls|);
    }
  }
}
