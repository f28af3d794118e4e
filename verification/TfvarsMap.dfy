/** The two map editors `replace_tfvars_map_assignment` and `replace_tfvars_assignment_literal`,
    and the map printer `render_terraform_map`. */
module TfvarsMap {
  import opened Text
  import opened Json
  import opened Tfvars
  import opened TfvarsScalar

  /** The entries of a BTreeMap, in key order. */
  type Entries = seq<(string, string)>

  function EntryLine(e: (string, string)): string {
    "  " + Quote(e.0) + " = " + Quote(e.1)
  }

  function EntryLines(m: Entries): (r: seq<string>)
    ensures |r| == |m|
    ensures forall i | 0 <= i < |m| :: r[i] == EntryLine(m[i])
  {
    if m == [] then [] else EntryLines(m[..|m| - 1]) + [EntryLine(m[|m| - 1])]
  }

  function Header(k: string): string { k + " = {" }

  function EmptyMap(k: string): string { k + " = {}" }

  /** The lines of a map written over several lines. */
  function LongBlock(k: string, m: Entries): (r: seq<string>)
    ensures r != []
  {
    [Header(k)] + EntryLines(m) + ["}"]
  }

  /** The lines the map editor writes: an empty map stays on one line. */
  function Block(k: string, m: Entries): (r: seq<string>)
    ensures r != []
  {
    if m == [] then [EmptyMap(k)] else LongBlock(k, m)
  }

  // ---------- the flag-based map editor ----------

  /** The header of a map that goes on over further lines. */
  predicate OpensBlock(line: string) {
    var t := TrimStart(line);
    EndsWith(t, "{") && '}' !in t
  }

  predicate IsClose(line: string) { TrimStart(line) == "}" }

  function AfterClose(ls: seq<string>): seq<string> {
    Drop(ls, First(ls, IsClose) + 1)
  }

  /** What is kept below the line at i when it is replaced. */
  function KeptBelow(ls: seq<string>, i: nat): seq<string>
    requires i <= |ls|
  {
    if i == |ls| then [] else if OpensBlock(ls[i]) then AfterClose(ls[i + 1..]) else ls[i + 1..]
  }

  function SetBlock(ls: seq<string>, k: string, block: seq<string>): seq<string> {
    var i := FirstMatch(ls, k);
    ls[..i] + block + KeptBelow(ls, i)
  }

  /** The text that `replace_tfvars_map_assignment` leaves. */
  function ReplaceMap(c: string, k: string, m: Entries): string {
    Unlines(SetBlock(Lines(c), k, Block(k, m)))
  }

  // ---------- the iterator-based literal editor ----------

  /** `render_terraform_map` */
  function RenderMap(m: Entries): string {
    "{\n" + Unlines(EntryLines(m)) + "}"
  }

  predicate LitMatches(line: string, k: string) { StartsWith(TrimStart(line), k + " = ") }

  predicate LitOpens(line: string) {
    EndsWith(TrimEnd(line), "{") || EndsWith(TrimEnd(line), "[")
  }

  predicate LitCloses(line: string) { Trim(line) == "}" || Trim(line) == "]" }

  function LitFirst(ls: seq<string>, k: string): (r: nat)
    ensures r <= |ls|
    ensures r < |ls| ==> LitMatches(ls[r], k)
    ensures forall i | 0 <= i < r :: !LitMatches(ls[i], k)
  {
    First(ls, l => LitMatches(l, k))
  }

  function LitKeptBelow(ls: seq<string>, i: nat): seq<string>
    requires i < |ls|
  {
    if LitOpens(ls[i]) then Drop(ls, i + 1 + First(ls[i + 1..], LitCloses) + 1) else ls[i + 1..]
  }

  predicate Unterminated(c: string) { c != [] && c[|c| - 1] != '\n' }

  /** The pieces the literal editor joins; a text without a final line feed first gets an empty one. */
  function SetLiteral(ls: seq<string>, k: string, replacement: seq<string>, unterminated: bool): seq<string> {
    var i := LitFirst(ls, k);
    if i < |ls| then ls[..i] + replacement + LitKeptBelow(ls, i)
    else if unterminated then ls + [""] + replacement
    else ls + replacement
  }

  /** Joins the pieces, adding a final line feed only if there is none yet. */
  function Terminate(joined: string): string {
    if EndsWith(joined, "\n") then joined else joined + "\n"
  }

  /** The text that `replace_tfvars_assignment_literal` leaves for a rendered literal. */
  function ReplaceLiteral(c: string, k: string, literal: string): string {
    Terminate(Join(SetLiteral(Lines(c), k, [k + " = " + literal], Unterminated(c))))
  }

  // ---------- the lines of a block ----------

  /** A line inside a map that no variable name can match: a quoted entry, a comment or a blank line. */
  predicate IsEntry(line: string) {
    var t := TrimStart(line);
    IsLine(line) && (t == [] || t[0] == '"' || t[0] == '#' || t[0] == '/')
  }

  lemma EntryLineIsEntry(e: (string, string))
    ensures IsEntry(EntryLine(e)) && IsLine(EntryLine(e))
    ensures TrimStart(EntryLine(e)) != [] && TrimStart(EntryLine(e))[0] == '"'
  {
    hide TrimLeft, Quote;
    var l := EntryLine(e);
    var q0, q1 := Quote(e.0), Quote(e.1);
    assert l == ("  " + q0 + " = ") + q1;
    assert l[2] == q0[0];
    assert l[|l| - 1] == q1[|q1| - 1];
    TrimLeftIs(l, IsSpace, 2);
    OneLineConcat("  ", q0);
    OneLineConcat("  " + q0, " = ");
    OneLineConcat("  " + q0 + " = ", q1);
  }

  lemma OneLineConcat(a: string, b: string)
    requires OneLine(a) && OneLine(b)
    ensures OneLine(a + b)
  {
  }

  lemma QuotedLineIsNoAssignment(line: string, k: string)
    requires IsIdent(k) && (IsEntry(line) || IsClose(line))
    ensures !Matches(line, k)
  {
    hide TrimLeft, IsLine;
    var t := TrimStart(line);
    assert k[0] in k && (k + " =")[0] == k[0];
  }

  lemma CloseLine()
    ensures IsClose("}") && IsLine("}") && Trim("}") == "}"
  {
    hide TrimBoth, TrimLeft;
    TrimLeftIs("}", IsSpace, 0);
    TrimBothAt("}", IsSpace, 0, 1);
  }

  lemma KeyLineShape(k: string, opening: string)
    requires IsIdent(k) && OneLine(opening) && opening != [] && opening[|opening| - 1] != '\r'
    ensures var l := k + " = " + opening;
            TrimStart(l) == l && AssignsKey(l, k) && LitMatches(l, k) && IsLine(l)
  {
    hide TrimLeft, Parse;
    var l := k + " = " + opening;
    assert l == k + " =" + (" " + opening);
    KeyLineMatches(k, " " + opening);
    MatchingLineBinds(l, k);
    assert l[0] == k[0] && k[0] in k;
    TrimLeftIs(l, IsSpace, 0);
    assert k + " = " <= l;
    OneLineConcat(" = ", opening);
    IdentOneLine(k, " = " + opening);
    assert k + (" = " + opening) == l;
    assert l[|l| - 1] == opening[|opening| - 1];
  }

  lemma HeaderLine(k: string)
    requires IsIdent(k)
    ensures AssignsKey(Header(k), k) && LitMatches(Header(k), k) && IsLine(Header(k)) && OpensBlock(Header(k))
    ensures TrimStart(Header(k)) == Header(k)
  {
    hide TrimLeft, Matches, Parse, LitMatches, IsLine;
    var l := k + " = " + "{";
    assert Header(k) == l;
    KeyLineShape(k, "{");
    assert l[|l| - 1..] == "{";
    forall i | 0 <= i < |l| ensures l[i] != '}' { if i < |k| { assert k[i] in k; } }
  }

  lemma EmptyMapLine(k: string)
    requires IsIdent(k)
    ensures AssignsKey(EmptyMap(k), k) && LitMatches(EmptyMap(k), k) && IsLine(EmptyMap(k)) && !OpensBlock(EmptyMap(k))
    ensures TrimStart(EmptyMap(k)) == EmptyMap(k)
  {
    hide TrimLeft, Matches, Parse, LitMatches, IsLine;
    var l := k + " = " + "{}";
    assert EmptyMap(k) == l;
    KeyLineShape(k, "{}");
    assert l[|l| - 1] == '}';
  }

  lemma LongBlockAt(k: string, m: Entries, i: nat)
    requires i < |m| + 2
    ensures |LongBlock(k, m)| == |m| + 2
    ensures LongBlock(k, m)[i] == if i == 0 then Header(k) else if i <= |m| then EntryLine(m[i - 1]) else "}"
  {
    hide Header, EntryLine;
  }

  lemma LongBlockLines(k: string, m: Entries)
    requires IsIdent(k)
    ensures |LongBlock(k, m)| == |m| + 2 && AllLines(LongBlock(k, m))
    ensures AssignsKey(LongBlock(k, m)[0], k)
    ensures forall i | 0 < i <= |m| :: IsEntry(LongBlock(k, m)[i])
    ensures IsClose(LongBlock(k, m)[|m| + 1])
  {
    hide Header, Parse, IsLine, EntryLine, Matches, IsIdent, IsEntry, IsClose, LongBlock, LitMatches, OpensBlock;
    var b := LongBlock(k, m);
    HeaderLine(k);
    CloseLine();
    LongBlockAt(k, m, 0);
    LongBlockAt(k, m, |m| + 1);
    forall i | 0 <= i < |b| ensures IsLine(b[i]) && (0 < i <= |m| ==> IsEntry(b[i])) {
      LongBlockAt(k, m, i);
      if 0 < i <= |m| { EntryLineIsEntry(m[i - 1]); }
    }
  }

  lemma BlockLines(k: string, m: Entries)
    requires IsIdent(k)
    ensures AllLines(Block(k, m))
    ensures AssignsKey(Block(k, m)[0], k)
  {
    hide EmptyMap, Parse, IsLine, LongBlock, Matches, IsIdent;
    EmptyMapLine(k);
    LongBlockLines(k, m);
  }

  // ---------- blocks that are already there ----------

  /** The block of b runs from its first line to the line at hi. */
  predicate IsBlockAt(ls: seq<string>, b: string, hi: nat) {
    var i := FirstMatch(ls, b);
    i < hi < |ls| && OpensBlock(ls[i]) && IsClose(ls[hi]) && forall n | i < n < hi :: IsEntry(ls[n])
  }

  /** The map of b, if it goes over several lines, is closed and holds only quoted entries. */
  predicate Tidy(ls: seq<string>, b: string) {
    var i := FirstMatch(ls, b);
    i < |ls| && OpensBlock(ls[i]) ==> exists hi | i < hi < |ls| :: IsBlockAt(ls, b, hi)
  }

  lemma EntryIsNoClose(line: string)
    requires IsEntry(line)
    ensures !IsClose(line) && !LitCloses(line)
  {
    hide TrimLeft, TrimRight;
    var t := TrimStart(line);
    assert Trim(line) == TrimEnd(t);
    if Trim(line) != [] { assert t != [] && Trim(line)[0] == t[0]; }
  }

  lemma BlockKeptBelow(ls: seq<string>, b: string, hi: nat)
    requires IsBlockAt(ls, b, hi)
    ensures KeptBelow(ls, FirstMatch(ls, b)) == ls[hi + 1..]
  {
    hide OpensBlock, IsClose, IsEntry, FirstMatch;
    var i := FirstMatch(ls, b);
    var rest := ls[i + 1..];
    forall n | 0 <= n < hi - i - 1 ensures !IsClose(rest[n]) { EntryIsNoClose(ls[i + 1 + n]); }
    FirstIs(rest, IsClose, hi - i - 1);
    assert rest[hi - i..] == ls[hi + 1..];
  }

  /** Rewriting a block that is already there removes all of it, whatever follows. */
  lemma SetBlockOverBlock(above: seq<string>, k: string, m: Entries, below: seq<string>, block: seq<string>)
    requires IsIdent(k) && forall i | 0 <= i < |above| :: !Matches(above[i], k)
    ensures SetBlock(above + Block(k, m) + below, k, block) == above + block + below
  {
    hide Matches, OpensBlock, IsIdent, LongBlock, FirstMatch, KeptBelow, Parse;
    var ls := above + Block(k, m) + below;
    BlockLines(k, m);
    assert ls[|above|] == Block(k, m)[0];
    assert FirstMatch(ls, k) == |above| by { FirstMatchIs(ls, k, |above|); }
    assert ls[..|above|] == above;
    if m == [] { KeptBelowEmptyMap(above, k, below); } else { KeptBelowLongBlock(above, k, m, below); }
  }

  lemma KeptBelowEmptyMap(above: seq<string>, k: string, below: seq<string>)
    requires IsIdent(k)
    ensures KeptBelow(above + [EmptyMap(k)] + below, |above|) == below
  {
    hide OpensBlock, EmptyMap, IsIdent, Matches, Parse;
    EmptyMapLine(k);
  }

  lemma KeptBelowLongBlock(above: seq<string>, k: string, m: Entries, below: seq<string>)
    requires IsIdent(k) && forall i | 0 <= i < |above| :: !Matches(above[i], k)
    ensures KeptBelow(above + LongBlock(k, m) + below, |above|) == below
  {
    hide Matches, OpensBlock, IsIdent, Header, FirstMatch, KeptBelow, Parse, IsEntry, IsClose, IsLine;
    var b := LongBlock(k, m);
    var ls := above + b + below;
    var hi := |above| + |m| + 1;
    LongBlockLines(k, m);
    HeaderLine(k);
    assert ls[|above|] == b[0] == Header(k);
    FirstMatchIs(ls, k, |above|);
    assert ls[hi] == b[|m| + 1];
    forall n | |above| < n < hi ensures IsEntry(ls[n]) { assert ls[n] == b[n - |above|]; }
    BlockKeptBelow(ls, k, hi);
    assert ls[hi + 1..] == below;
  }

  // ---------- last write wins, for maps ----------

  /** No line that a map edit of k keeps still ends in a carriage return. */
  predicate MapKeepsNoCr(ls: seq<string>, k: string) {
    var i := FirstMatch(ls, k);
    (forall n | 0 <= n < i :: !EndsInCr(ls[n])) &&
    forall n | 0 <= n < |KeptBelow(ls, i)| :: !EndsInCr(KeptBelow(ls, i)[n])
  }

  /** Writing two maps in turn leaves exactly the text of writing the second one: no continuation line
      of the first survives. It holds exactly when no kept line ends in a carriage return. */
  lemma MapLastWriteWins(c: string, k: string, m1: Entries, m2: Entries)
    requires IsIdent(k)
    ensures ReplaceMap(ReplaceMap(c, k, m1), k, m2) == ReplaceMap(c, k, m2) <==> MapKeepsNoCr(Lines(c), k)
  {
    hide Lines, Unlines, IsIdent, EndsInCr, Block, SetBlock, MapKeepsNoCr;
    var es := SetBlock(Lines(c), k, Block(k, m2));
    LinesOfSetBlock(c, k, m1);
    SetBlockTwice(Lines(c), k, m1, m2);
    MapKeepsNoCrIs(Lines(c), k, m2);
    UnlinesStripShorter(es);
    if MapKeepsNoCr(Lines(c), k) { StripCrsSame(es); }
  }

  lemma SetBlockTwice(ls: seq<string>, k: string, m1: Entries, m2: Entries)
    requires IsIdent(k)
    ensures SetBlock(StripCrs(SetBlock(ls, k, Block(k, m1))), k, Block(k, m2)) ==
            StripCrs(SetBlock(ls, k, Block(k, m2)))
  {
    hide IsIdent, Matches, StripCrs, StripCr, Parse, Block, KeptBelow, FirstMatch, AllLines;
    var i := FirstMatch(ls, k);
    var above, below := ls[..i], KeptBelow(ls, i);
    BlockLines(k, m1);
    BlockLines(k, m2);
    StripThree(above, Block(k, m1), below);
    StripThree(above, Block(k, m2), below);
    forall n | 0 <= n < |above| ensures !Matches(StripCrs(above)[n], k) { MatchesStripCr(above[n], k); }
    SetBlockOverBlock(StripCrs(above), k, m1, StripCrs(below), Block(k, m2));
  }

  lemma StripThree(above: seq<string>, block: seq<string>, below: seq<string>)
    requires AllLines(block)
    ensures StripCrs(above + block + below) == StripCrs(above) + block + StripCrs(below)
  {
    hide AllLines, StripCrs;
    StripCrsConcat(above + block, below);
    StripCrsConcat(above, block);
    StripCrsLines(block);
  }

  lemma MapKeepsNoCrIs(ls: seq<string>, k: string, m: Entries)
    requires IsIdent(k)
    ensures MapKeepsNoCr(ls, k) <==>
            var es := SetBlock(ls, k, Block(k, m)); forall i | 0 <= i < |es| :: !EndsInCr(es[i])
  {
    hide EndsInCr, OneLine, Block, KeptBelow, FirstMatch, IsIdent, Matches, Parse;
    var i := FirstMatch(ls, k);
    var above, b, below := ls[..i], Block(k, m), KeptBelow(ls, i);
    BlockLines(k, m);
    var es := SetBlock(ls, k, b);
    assert es == above + b + below;
    if forall n | 0 <= n < |es| :: !EndsInCr(es[n]) {
      forall n | 0 <= n < i ensures !EndsInCr(ls[n]) { assert es[n] == ls[n]; }
      forall n | 0 <= n < |below| ensures !EndsInCr(below[n]) { assert es[i + |b| + n] == below[n]; }
    }
    forall n | i <= n < i + |b| ensures !EndsInCr(es[n]) { assert es[n] == b[n - i] && IsLine(b[n - i]); }
  }

  lemma LinesOfSetBlock(c: string, k: string, m: Entries)
    requires IsIdent(k)
    ensures Lines(ReplaceMap(c, k, m)) == StripCrs(SetBlock(Lines(c), k, Block(k, m)))
  {
    hide Lines, Unlines, IsIdent, Matches, EndsInCr, OneLine, Parse, Block, FirstMatch, KeptBelow;
    var ls := Lines(c);
    var i := FirstMatch(ls, k);
    BlockLines(k, m);
    KeptBelowLines(ls, i);
    forall l | l in SetBlock(ls, k, Block(k, m)) ensures OneLine(l) {
      assert l in ls[..i] || l in Block(k, m) || l in KeptBelow(ls, i);
      if l in Block(k, m) {
        var n :| 0 <= n < |Block(k, m)| && Block(k, m)[n] == l;
        assert IsLine(Block(k, m)[n]);
      }
    }
    LinesUnlines(SetBlock(ls, k, Block(k, m)));
  }

  lemma KeptBelowLines(ls: seq<string>, i: nat)
    requires i <= |ls|
    ensures forall l | l in KeptBelow(ls, i) :: l in ls
  {
    hide OpensBlock, First;
  }
}
