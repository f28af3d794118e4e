/** Laws of the map editors: when the two agree, and what each of them leaves alone. */
module TfvarsMapLaws {
  import opened Wrappers
  import opened Text
  import opened Tfvars
  import opened TfvarsScalar
  import opened TfvarsMap

  // ---------- the two map editors agree ----------

  /** The pieces of the literal editor's result, with the written map as separate lines. */
  function LiteralLines(c: string, k: string, m: Entries): seq<string> {
    SetLiteral(Lines(c), k, LongBlock(k, m), Unterminated(c))
  }

  lemma RenderMapIsBlock(k: string, m: Entries)
    ensures k + " = " + RenderMap(m) == Join(LongBlock(k, m))
  {
    hide EntryLines, Join, Unlines;
    var b, es := LongBlock(k, m), EntryLines(m);
    JoinUnlines(b);
    UnlinesConcat([Header(k)] + es, ["}"]);
    UnlinesConcat([Header(k)], es);
    UnlinesOne(Header(k));
    UnlinesOne("}");
    var s := k + " = " + RenderMap(m);
    assert s + "\n" == Header(k) + "\n" + Unlines(es) + "}" + "\n";
    assert s == (s + "\n")[..|s|] && Join(b) == (Join(b) + "\n")[..|s|];
  }

  lemma UnlinesOne(l: string)
    ensures Unlines([l]) == l + "\n"
  {
    assert [l][1..] == [];
  }

  lemma {:induction false} JoinLast(ls: seq<string>)
    requires ls != []
    ensures var l := ls[|ls| - 1];
            (l != [] ==> Join(ls) != [] && Join(ls)[|Join(ls)| - 1] == l[|l| - 1]) &&
            (l == [] && |ls| > 1 ==> EndsWith(Join(ls), "\n"))
  {
    if |ls| > 1 {
      JoinLast(ls[1..]);
      if |ls| == 2 && ls[1] == [] {
        assert Join(ls) == ls[0] + "\n" + Join(ls[1..]);
      }
    }
  }

  /** A text is what its pieces spell, one line feed shorter if the last of several pieces is blank. */
  lemma TerminateJoin(ls: seq<string>)
    requires ls != [] && ls[|ls| - 1] != [] ==> OneLine(ls[|ls| - 1])
    requires |ls| > 1 || (|ls| == 1 && ls[0] != [])
    ensures Terminate(Join(ls)) == if ls[|ls| - 1] == [] then Join(ls) else Unlines(ls)
    ensures Join(ls) + "\n" == Unlines(ls)
  {
    hide Join, Unlines;
    JoinUnlines(ls);
    JoinLast(ls);
    var l := ls[|ls| - 1];
    if l != [] {
      assert l[|l| - 1] in l;
      assert Join(ls)[|Join(ls)| - 1..] == [l[|l| - 1]];
    }
  }

  lemma {:induction false} JoinBlock(above: seq<string>, block: seq<string>, below: seq<string>)
    requires block != []
    ensures Join(above + [Join(block)] + below) == Join(above + block + below)
  {
    hide Join, Unlines;
    var a, b := above + [Join(block)] + below, above + block + below;
    UnlinesBlock(above, block, below);
    JoinUnlines(a);
    JoinUnlines(b);
    assert Join(a) == (Join(a) + "\n")[..|Join(a)|];
    assert Join(b) == (Join(b) + "\n")[..|Join(b)|];
  }

  lemma LiteralText(c: string, k: string, m: Entries)
    ensures ReplaceLiteral(c, k, RenderMap(m)) == Terminate(Join(LiteralLines(c, k, m)))
  {
    hide Join, Lines, LitMatches, LongBlock, RenderMap, LitFirst, LitKeptBelow;
    var ls, i := Lines(c), LitFirst(Lines(c), k);
    RenderMapIsBlock(k, m);
    var b := LongBlock(k, m);
    if i < |ls| {
      JoinBlock(ls[..i], b, LitKeptBelow(ls, i));
    } else {
      var above := if Unterminated(c) then ls + [""] else ls;
      JoinBlock(above, b, []);
      assert above + [Join(b)] + [] == above + [Join(b)];
      assert above + b + [] == above + b;
    }
  }

  /** The line that assigns k, if any, is the bare header of a closed map of quoted entries or `{}`. */
  predicate CanonicalKey(ls: seq<string>, k: string) {
    var i := FirstMatch(ls, k);
    i < |ls| ==>
      TrimStart(ls[i]) == EmptyMap(k) ||
      (TrimStart(ls[i]) == Header(k) && exists hi | i < hi < |ls| :: IsBlockAt(ls, k, hi))
  }

  lemma LitMatchIsMatch(line: string, k: string)
    requires LitMatches(line, k)
    ensures Matches(line, k)
  {
    hide TrimLeft;
    assert k + " = " == (k + " =") + " ";
  }

  /** On a canonical key the literal editor finds the same line and drops the same continuation. */
  lemma SameSplice(ls: seq<string>, k: string)
    requires IsIdent(k) && CanonicalKey(ls, k)
    ensures LitFirst(ls, k) == FirstMatch(ls, k)
    ensures FirstMatch(ls, k) < |ls| ==> LitKeptBelow(ls, FirstMatch(ls, k)) == KeptBelow(ls, FirstMatch(ls, k))
  {
    hide TrimLeft, TrimRight, Header, EmptyMap, Matches, Parse, LitKeptBelow, KeptBelow, IsBlockAt, IsIdent,
      FirstMatch, IsLine;
    var i := FirstMatch(ls, k);
    forall n | 0 <= n < i ensures !LitMatches(ls[n], k) {
      if LitMatches(ls[n], k) { LitMatchIsMatch(ls[n], k); }
    }
    if i < |ls| {
      HeaderLine(k);
      EmptyMapLine(k);
      if TrimStart(ls[i]) == Header(k) {
        var hi :| i < hi < |ls| && IsBlockAt(ls, k, hi);
        SameTailBlock(ls, k, hi);
      } else {
        SameTailEmpty(ls, k);
      }
    }
    var r := LitFirst(ls, k);
    assert r <= |ls|;
  }

  lemma SameTailEmpty(ls: seq<string>, k: string)
    requires IsIdent(k)
    requires var i := FirstMatch(ls, k); i < |ls| && TrimStart(ls[i]) == EmptyMap(k)
    ensures LitKeptBelow(ls, FirstMatch(ls, k)) == KeptBelow(ls, FirstMatch(ls, k))
  {
    hide TrimLeft, TrimRight, Matches, FirstMatch;
    var l := ls[FirstMatch(ls, k)];
    var t := TrimStart(l);
    assert l[|l| - 1] == t[|t| - 1] == '}';
    TrimRightIs(l, IsSpace, |l|);
    assert l[..|l|] == l;
    assert TrimEnd(l)[|l| - 1] == '}';
  }

  lemma SameTailBlock(ls: seq<string>, k: string, hi: nat)
    requires IsIdent(k) && IsBlockAt(ls, k, hi)
    ensures LitKeptBelow(ls, FirstMatch(ls, k)) == KeptBelow(ls, FirstMatch(ls, k))
  {
    hide TrimLeft, TrimRight, Matches, FirstMatch, IsEntry, KeptBelow, LitCloses;
    var i := FirstMatch(ls, k);
    var l := ls[i];
    BlockKeptBelow(ls, k, hi);
    assert LitOpens(l) by {
      var t := TrimStart(l);
      assert t[|t| - 1..] == "{";
      assert l[|l| - 1] == t[|t| - 1] == '{';
      TrimRightIs(l, IsSpace, |l|);
      assert l[..|l|] == l && l[|l| - 1..] == "{";
    }
    CloseIsLitClose(ls[hi]);
    LitCloseAt(ls, i, hi);
  }

  lemma CloseIsLitClose(line: string)
    requires IsClose(line)
    ensures LitCloses(line)
  {
    hide TrimLeft, TrimRight;
    assert Trim(line) == TrimEnd("}");
    TrimRightIs("}", IsSpace, 1);
    assert "}"[..1] == "}";
  }

  lemma LitCloseAt(ls: seq<string>, i: nat, hi: nat)
    requires i < hi < |ls| && LitOpens(ls[i]) && LitCloses(ls[hi])
    requires forall n | i < n < hi :: IsEntry(ls[n])
    ensures LitKeptBelow(ls, i) == ls[hi + 1..]
  {
    hide IsEntry, LitOpens, LitCloses, First;
    var rest := ls[i + 1..];
    forall n | 0 <= n < hi - i - 1 ensures !LitCloses(rest[n]) { EntryIsNoClose(ls[i + 1 + n]); }
    FirstIs(rest, LitCloses, hi - i - 1);
  }

  /** The two map editors write the same text for a non-empty map exactly when the tail of the text is
      in order: no blank last line below a replaced map, and a final line feed before an added one. */
  lemma MapEditorsAgree(c: string, k: string, m: Entries)
    requires IsIdent(k) && m != [] && CanonicalKey(Lines(c), k)
    ensures ReplaceLiteral(c, k, RenderMap(m)) == ReplaceMap(c, k, m) <==>
            var ls := Lines(c);
            var i := FirstMatch(ls, k);
            if i < |ls| then KeptBelow(ls, i) == [] || ls[|ls| - 1] != "" else !Unterminated(c)
  {
    hide Lines, FirstMatch, CanonicalKey, IsIdent, RenderMap, KeptBelow, LiteralLines, ReplaceLiteral, ReplaceMap;
    LiteralText(c, k, m);
    SameSplice(Lines(c), k);
    if FirstMatch(Lines(c), k) < |Lines(c)| { AgreeOverMap(c, k, m); } else { AgreeAtEnd(c, k, m); }
  }

  /** The lines of both results when the map replaces another one. */
  lemma AgreeOverMap(c: string, k: string, m: Entries)
    requires m != [] && LitFirst(Lines(c), k) == FirstMatch(Lines(c), k) < |Lines(c)|
    requires var ls, i := Lines(c), FirstMatch(Lines(c), k); LitKeptBelow(ls, i) == KeptBelow(ls, i)
    ensures var ls, i := Lines(c), FirstMatch(Lines(c), k);
            Terminate(Join(LiteralLines(c, k, m))) == ReplaceMap(c, k, m) <==>
                KeptBelow(ls, i) == [] || ls[|ls| - 1] != ""
  {
    hide Join, Unlines, Lines, LongBlock, FirstMatch, LitFirst, LitKeptBelow, KeptBelow, Terminate;
    var ls := Lines(c);
    var i := FirstMatch(ls, k);
    var b, below := LongBlock(k, m), KeptBelow(ls, i);
    var x := ls[..i] + b + below;
    assert LiteralLines(c, k, m) == x;
    assert ReplaceMap(c, k, m) == Unlines(x);
    LongBlockEnd(k, m);
    KeptBelowEnd(ls, i);
    assert x[|x| - 1] == if below == [] then b[|b| - 1] else below[|below| - 1];
    TerminateJoin(x);
  }

  /** The lines of both results when the map is added at the end. */
  lemma AgreeAtEnd(c: string, k: string, m: Entries)
    requires m != [] && LitFirst(Lines(c), k) == FirstMatch(Lines(c), k) == |Lines(c)|
    ensures Terminate(Join(LiteralLines(c, k, m))) == ReplaceMap(c, k, m) <==> !Unterminated(c)
  {
    hide Join, Unlines, Lines, LongBlock, FirstMatch, LitFirst, KeptBelow, Terminate, Unterminated;
    var ls, b := Lines(c), LongBlock(k, m);
    NothingBelow(ls);
    assert ls[..|ls|] + b + [] == ls + b;
    assert ReplaceMap(c, k, m) == Unlines(ls + b);
    LongBlockEnd(k, m);
    if Unterminated(c) {
      var x := ls + [""] + b;
      assert LiteralLines(c, k, m) == x;
      BlankLengthens(ls, b);
      assert x[|x| - 1] == b[|b| - 1];
      TerminateJoin(x);
    } else {
      var x := ls + b;
      assert LiteralLines(c, k, m) == x;
      assert x[|x| - 1] == b[|b| - 1];
      TerminateJoin(x);
    }
  }

  lemma BlankLengthens(ls: seq<string>, b: seq<string>)
    ensures |Unlines(ls + [""] + b)| == |Unlines(ls + b)| + 1
  {
    hide Unlines;
    UnlinesConcat(ls + [""], b);
    UnlinesConcat(ls, [""]);
    UnlinesConcat(ls, b);
    UnlinesOne("");
  }

  lemma NothingBelow(ls: seq<string>)
    ensures KeptBelow(ls, |ls|) == []
  {
  }

  lemma LongBlockEnd(k: string, m: Entries)
    ensures |LongBlock(k, m)| == |m| + 2 && LongBlock(k, m)[|LongBlock(k, m)| - 1] == "}" && OneLine("}")
  {
  }

  lemma KeptBelowEnd(ls: seq<string>, i: nat)
    requires i < |ls|
    ensures var r := KeptBelow(ls, i); r != [] ==> r[|r| - 1] == ls[|ls| - 1]
    ensures forall l | l in KeptBelow(ls, i) :: l in ls
  {
    hide OpensBlock, First;
  }

  // ---------- what a map edit leaves alone ----------

  lemma FirstMatchConcat(a: seq<string>, b: seq<string>, j: string)
    ensures FirstMatch(a + b, j) == if FirstMatch(a, j) < |a| then FirstMatch(a, j) else |a| + FirstMatch(b, j)
  {
    hide Matches, FirstMatch;
    var n := if FirstMatch(a, j) < |a| then FirstMatch(a, j) else |a| + FirstMatch(b, j);
    FirstMatchIs(a + b, j, n);
  }

  predicate NoneAssigns(ls: seq<string>, j: string) { forall i | 0 <= i < |ls| :: !Matches(ls[i], j) }

  lemma CanonLineConcat(a: seq<string>, b: seq<string>, j: string)
    ensures CanonLine(a + b, j) == if CanonLine(a, j).Some? then CanonLine(a, j) else CanonLine(b, j)
  {
    hide Matches, FirstMatch, TrimBoth;
    FirstMatchConcat(a, b, j);
  }

  /** Swapping a stretch of lines that do not assign j for others that do not leaves j's first line. */
  lemma CanonLineSplice(a: seq<string>, d: seq<string>, r: seq<string>, b: seq<string>, j: string)
    requires NoneAssigns(d, j) && NoneAssigns(r, j)
    ensures CanonLine(a + d + b, j) == CanonLine(a + r + b, j)
  {
    hide Matches, FirstMatch, TrimBoth;
    CanonLineNone(d, j);
    CanonLineNone(r, j);
    hide CanonLine;
    CanonLineConcat(a + d, b, j);
    CanonLineConcat(a, d, j);
    CanonLineConcat(a + r, b, j);
    CanonLineConcat(a, r, j);
  }

  lemma CanonLineNone(ls: seq<string>, j: string)
    requires NoneAssigns(ls, j)
    ensures CanonLine(ls, j) == None
  {
    hide Matches;
  }

  lemma BlockAssignsOnly(k: string, m: Entries, j: string)
    requires IsIdent(k) && IsIdent(j) && j != k
    ensures NoneAssigns(Block(k, m), j) && NoneAssigns(LongBlock(k, m), j)
  {
    hide LongBlock, EmptyMap, NoneAssigns, IsIdent;
    LongBlockAssignsOnly(k, m, j);
    EmptyMapAssignsOnly(k, j);
  }

  lemma LongBlockAssignsOnly(k: string, m: Entries, j: string)
    requires IsIdent(k) && IsIdent(j) && j != k
    ensures NoneAssigns(LongBlock(k, m), j)
  {
    hide Matches, IsIdent, LongBlock, Parse, IsEntry, IsClose, AllLines;
    LongBlockLines(k, m);
    var b := LongBlock(k, m);
    forall i | 0 <= i < |b| ensures !Matches(b[i], j) {
      if i == 0 {
        if Matches(b[0], j) { MatchesOneKey(b[0], j, k); }
      } else {
        QuotedLineIsNoAssignment(b[i], j);
      }
    }
  }

  lemma EmptyMapAssignsOnly(k: string, j: string)
    requires IsIdent(k) && IsIdent(j) && j != k
    ensures NoneAssigns([EmptyMap(k)], j)
  {
    hide Matches, IsIdent, EmptyMap, Parse, OpensBlock, LitMatches, IsLine, TrimLeft, NoneAssigns;
    EmptyMapLine(k);
    OneAssignsOnly(EmptyMap(k), k, j);
  }

  lemma OneAssignsOnly(line: string, k: string, j: string)
    requires IsIdent(k) && IsIdent(j) && j != k && Matches(line, k)
    ensures NoneAssigns([line], j)
  {
    hide Matches, IsIdent;
    if Matches(line, j) { MatchesOneKey(line, j, k); }
  }

  /** A header, quoted entries and a closing line do not assign j, if the first and the last do not. */
  lemma DroppedLines(ls: seq<string>, i: nat, h: nat, j: string)
    requires IsIdent(j) && i < h < |ls| && !Matches(ls[i], j) && !Matches(ls[h], j)
    requires forall n | i < n < h :: IsEntry(ls[n])
    ensures NoneAssigns(ls[i..h + 1], j)
  {
    hide Matches, IsIdent, IsEntry;
    forall n | i <= n <= h ensures !Matches(ls[n], j) {
      if i < n < h { QuotedLineIsNoAssignment(ls[n], j); }
    }
  }

  lemma DroppedAssignsOnly(ls: seq<string>, k: string, j: string) returns (hi: nat)
    requires IsIdent(k) && IsIdent(j) && j != k && Tidy(ls, k)
    ensures var i := FirstMatch(ls, k);
            i <= hi <= |ls| && KeptBelow(ls, i) == ls[hi..] && NoneAssigns(ls[i..hi], j)
  {
    hide Matches, IsIdent, FirstMatch, IsEntry, IsClose, OpensBlock, KeptBelow, NoneAssigns;
    var i := FirstMatch(ls, k);
    if i == |ls| {
      hi := i;
      NothingBelow(ls);
      NoneAssignsNothing(j);
      assert ls[i..hi] == [] && ls[hi..] == [];
    } else {
      if Matches(ls[i], j) { MatchesOneKey(ls[i], j, k); }
      if OpensBlock(ls[i]) {
        var h :| i < h < |ls| && IsBlockAt(ls, k, h);
        hi := h + 1;
        BlockKeptBelow(ls, k, h);
        QuotedLineIsNoAssignment(ls[h], j);
        DroppedLines(ls, i, h, j);
      } else {
        hi := i + 1;
        OneDropped(ls, i, j);
      }
    }
  }

  lemma OneDropped(ls: seq<string>, i: nat, j: string)
    requires i < |ls| && !OpensBlock(ls[i]) && !Matches(ls[i], j)
    ensures KeptBelow(ls, i) == ls[i + 1..] && NoneAssigns(ls[i..i + 1], j)
  {
    hide Matches, OpensBlock;
  }

  /** Frame: a map edit leaves the first line of every other key, if the map it replaces is tidy. */
  lemma CanonLineReplaceMap(c: string, k: string, m: Entries, j: string)
    requires IsIdent(k) && IsIdent(j) && j != k && Tidy(Lines(c), k)
    ensures CanonLine(Lines(ReplaceMap(c, k, m)), j) == CanonLine(Lines(c), j)
  {
    hide Lines, ReplaceMap, IsIdent, Matches, CanonLine, Block, Tidy, FirstMatch, KeptBelow, NoneAssigns;
    var ls := Lines(c);
    var i := FirstMatch(ls, k);
    var hi := DroppedAssignsOnly(ls, k, j);
    BlockAssignsOnly(k, m, j);
    CanonLineSplice(ls[..i], ls[i..hi], Block(k, m), ls[hi..], j);
    assert ls[..i] + ls[i..hi] + ls[hi..] == ls;
    LinesOfSetBlock(c, k, m);
    CanonLineStripCrs(SetBlock(ls, k, Block(k, m)), j);
  }

  /** The map that the literal editor would replace is closed and holds only quoted entries. */
  predicate LitTidy(ls: seq<string>, k: string) {
    var i := LitFirst(ls, k);
    i < |ls| && LitOpens(ls[i]) ==> exists hi | i < hi < |ls| :: LitBlockAt(ls, i, hi)
  }

  predicate LitBlockAt(ls: seq<string>, i: nat, hi: nat) {
    i < hi < |ls| && LitCloses(ls[hi]) && forall n | i < n < hi :: IsEntry(ls[n])
  }

  lemma LitCloseIsNoAssignment(line: string, k: string)
    requires IsIdent(k) && LitCloses(line)
    ensures !Matches(line, k)
  {
    hide TrimBoth, Value;
    IndexOfIs(Trim(line), '=', 1);
    assert Parse(line) == Opaque;
    if Matches(line, k) { MatchingLineBinds(line, k); }
  }

  lemma LitDroppedAssignsOnly(ls: seq<string>, k: string, j: string) returns (hi: nat)
    requires IsIdent(k) && IsIdent(j) && j != k && LitTidy(ls, k) && LitFirst(ls, k) < |ls|
    ensures var i := LitFirst(ls, k);
            i <= hi <= |ls| && LitKeptBelow(ls, i) == ls[hi..] && NoneAssigns(ls[i..hi], j)
  {
    hide Matches, IsIdent, LitFirst, IsEntry, LitCloses, LitOpens, LitMatches, NoneAssigns, LitKeptBelow;
    var i := LitFirst(ls, k);
    LitMatchIsMatch(ls[i], k);
    if Matches(ls[i], j) { MatchesOneKey(ls[i], j, k); }
    if LitOpens(ls[i]) {
      var h :| i < h < |ls| && LitBlockAt(ls, i, h);
      hi := h + 1;
      LitCloseAt(ls, i, h);
      LitCloseIsNoAssignment(ls[h], j);
      DroppedLines(ls, i, h, j);
    } else {
      hi := i + 1;
      LitOneDropped(ls, i, j);
    }
  }

  lemma LitOneDropped(ls: seq<string>, i: nat, j: string)
    requires i < |ls| && !LitOpens(ls[i]) && !Matches(ls[i], j)
    ensures LitKeptBelow(ls, i) == ls[i + 1..] && NoneAssigns(ls[i..i + 1], j)
  {
    hide Matches, LitOpens;
  }

  lemma BlankAssignsNothing(j: string)
    requires IsIdent(j)
    ensures NoneAssigns([""], j)
  {
    hide First;
  }

  lemma CanonLineLiteralLines(c: string, k: string, m: Entries, j: string)
    requires IsIdent(k) && IsIdent(j) && j != k && LitTidy(Lines(c), k)
    ensures CanonLine(LiteralLines(c, k, m), j) == CanonLine(Lines(c), j)
  {
    hide Lines, IsIdent, CanonLine, LongBlock, LitTidy, LitFirst, LitKeptBelow, NoneAssigns;
    var ls := Lines(c);
    var i := LitFirst(ls, k);
    var b := LongBlock(k, m);
    BlockAssignsOnly(k, m, j);
    if i < |ls| {
      var hi := LitDroppedAssignsOnly(ls, k, j);
      CanonLineSplice(ls[..i], ls[i..hi], b, ls[hi..], j);
      assert ls[..i] + ls[i..hi] + ls[hi..] == ls;
    } else {
      BlankAssignsNothing(j);
      NoneAssignsNothing(j);
      CanonLineSplice(ls, [], b, [], j);
      CanonLineSplice(ls, [], [""], b, j);
      assert ls + [] + [] == ls && ls + b + [] == ls + b && ls + [] + b == ls + b;
    }
  }

  lemma NoneAssignsNothing(j: string)
    ensures NoneAssigns([], j)
  {
  }

  lemma LitKeptBelowLines(ls: seq<string>, i: nat)
    requires i < |ls|
    ensures forall l | l in LitKeptBelow(ls, i) :: l in ls
  {
    hide LitOpens, First;
  }

  lemma LiteralLinesOneLine(c: string, k: string, m: Entries)
    requires IsIdent(k)
    ensures forall l | l in LiteralLines(c, k, m) :: OneLine(l)
    ensures |LiteralLines(c, k, m)| > 1
  {
    hide Lines, LitFirst, LitKeptBelow, IsIdent, LongBlock, Matches, Parse, IsEntry, IsClose;
    var ls := Lines(c);
    var i := LitFirst(ls, k);
    var b := LongBlock(k, m);
    LongBlockLines(k, m);
    LongBlockEnd(k, m);
    if i < |ls| {
      LitKeptBelowLines(ls, i);
      assert forall l | l in LiteralLines(c, k, m) :: l in ls || l in b;
    }
    forall l | l in LiteralLines(c, k, m) ensures OneLine(l) {
      assert l in ls || l == "" || l in b;
      if l in b {
        var n :| 0 <= n < |b| && b[n] == l;
        assert IsLine(b[n]);
      }
    }
  }

  /** The lines of the literal editor's text are its pieces, without one blank piece at the end. */
  lemma LinesOfLiteral(c: string, k: string, m: Entries)
    requires IsIdent(k)
    ensures var x, ls := LiteralLines(c, k, m), Lines(ReplaceLiteral(c, k, RenderMap(m)));
            StripCrs(x) == (if x[|x| - 1] == "" then ls + [""] else ls)
  {
    hide Lines, Join, Unlines, LiteralLines, IsIdent, RenderMap, OneLine, ReplaceLiteral, Terminate, StripCrs;
    var x := LiteralLines(c, k, m);
    LiteralText(c, k, m);
    LiteralLinesOneLine(c, k, m);
    assert x[|x| - 1] in x;
    TerminateJoin(x);
    if x[|x| - 1] == "" {
      var y := x[..|x| - 1];
      assert x == y + [""] && forall l | l in y :: l in x;
      LinesOfJoin(y);
    } else {
      LinesUnlines(x);
    }
  }

  lemma LinesOfJoin(y: seq<string>)
    requires forall l | l in y :: OneLine(l)
    ensures StripCrs(y + [""]) == Lines(Join(y + [""])) + [""]
  {
    hide Lines, Join, Unlines, OneLine, StripCrs;
    JoinBlankEnd(y);
    LinesUnlines(y);
    StripCrsConcat(y, [""]);
    StripBlank();
  }

  /** A blank last piece is what ends the last line. */
  lemma {:induction false} JoinBlankEnd(y: seq<string>)
    ensures Join(y + [""]) == Unlines(y)
  {
    if y != [] {
      assert (y + [""])[1..] == y[1..] + [""];
      JoinBlankEnd(y[1..]);
    }
  }

  lemma StripBlank()
    ensures StripCrs([""]) == [""]
  {
  }

  /** Frame: a literal edit leaves the first line of every other key, if the map it replaces is tidy. */
  lemma CanonLineReplaceLiteral(c: string, k: string, m: Entries, j: string)
    requires IsIdent(k) && IsIdent(j) && j != k && LitTidy(Lines(c), k)
    ensures CanonLine(Lines(ReplaceLiteral(c, k, RenderMap(m))), j) == CanonLine(Lines(c), j)
  {
    hide Lines, ReplaceLiteral, IsIdent, CanonLine, LiteralLines, RenderMap, LitTidy, NoneAssigns;
    var x, ls := LiteralLines(c, k, m), Lines(ReplaceLiteral(c, k, RenderMap(m)));
    CanonLineLiteralLines(c, k, m, j);
    LinesOfLiteral(c, k, m);
    CanonLineStripCrs(x, j);
    BlankAssignsNothing(j);
    NoneAssignsNothing(j);
    CanonLineSplice(ls, [], [""], [], j);
    assert ls + [] + [] == ls && ls + [""] + [] == ls + [""];
  }

  // ---------- scalar edits leave the maps of other keys alone ----------

  lemma BlockSetLine(ls: seq<string>, k: string, line: string, b: string, hi: nat)
    requires IsIdent(k) && IsIdent(b) && b != k && Matches(line, k) && IsBlockAt(ls, b, hi)
    ensures var es, i := SetLine(ls, k, line), FirstMatch(ls, b);
            IsBlockAt(es, b, hi) && FirstMatch(es, b) == i && es[i..hi + 1] == ls[i..hi + 1]
  {
    hide Matches, IsIdent, FirstMatch, IsEntry, IsClose, OpensBlock, SetLine;
    var es, i, n := SetLine(ls, k, line), FirstMatch(ls, b), FirstMatch(ls, k);
    SetLineOther(ls, k, line, b);
    SetLineAt(ls, k, line);
    if n == i { MatchesOneKey(ls[i], b, k); }
    if i < n <= hi { QuotedLineIsNoAssignment(ls[n], k); }
    assert n < i || hi < n;
  }

  lemma BlockStripCrs(ls: seq<string>, b: string, hi: nat)
    requires IsIdent(b) && IsBlockAt(ls, b, hi)
    ensures var es, i := StripCrs(ls), FirstMatch(ls, b);
            IsBlockAt(es, b, hi) && FirstMatch(es, b) == i && es[i..hi + 1] == ls[i..hi + 1]
  {
    hide Matches, IsIdent, FirstMatch, TrimLeft, StripCrs, OneLine;
    var i := FirstMatch(ls, b);
    FirstMatchStripCrs(ls, b);
    assert !EndsInCr(ls[i]) by { assert TrimStart(ls[i])[|TrimStart(ls[i])| - 1..] == "{"; }
    assert !EndsInCr(ls[hi]);
    assert forall n | i <= n <= hi :: StripCrs(ls)[n] == ls[n];
  }

  /** A closed map of quoted entries stays, line for line, where it is under any run of scalar edits
      of other keys. */
  lemma {:induction false} RunKeepsBlock(c: string, edits: seq<Assignment>, b: string, hi: nat)
    requires IdentKeys(edits) && IsIdent(b) && LastValue(edits, b) == None && IsBlockAt(Lines(c), b, hi)
    ensures var ls, es, i := Lines(c), Lines(Run(c, edits)), FirstMatch(Lines(c), b);
            IsBlockAt(es, b, hi) && FirstMatch(es, b) == i && es[i..hi + 1] == ls[i..hi + 1]
  {
    hide Lines, Replace, IsIdent, IsBlockAt, FirstMatch, RenderScalar, Matches, Parse, SetLine, StripCrs;
    if edits != [] {
      var n := |edits| - 1;
      var d := Run(c, edits[..n]);
      var k, v := edits[n].0, edits[n].1;
      assert edits[n] in edits;
      RunKeepsBlock(c, edits[..n], b, hi);
      LinesOfReplace(d, k, v);
      BlockSetLine(Lines(d), k, RenderScalar(k, v), b, hi);
      BlockStripCrs(SetLine(Lines(d), k, RenderScalar(k, v)), b, hi);
    }
  }

  lemma TidySetLine(ls: seq<string>, k: string, line: string, b: string)
    requires IsIdent(k) && IsIdent(b) && b != k && Matches(line, k) && Tidy(ls, b)
    ensures Tidy(SetLine(ls, k, line), b)
  {
    hide Matches, IsIdent, FirstMatch, IsBlockAt, OpensBlock, SetLine;
    var i := FirstMatch(ls, b);
    SetLineOther(ls, k, line, b);
    if i < |ls| && OpensBlock(ls[i]) {
      var hi :| i < hi < |ls| && IsBlockAt(ls, b, hi);
      BlockSetLine(ls, k, line, b, hi);
      BlockEnds(SetLine(ls, k, line), b, hi);
    }
  }

  lemma BlockEnds(ls: seq<string>, b: string, hi: nat)
    requires IsBlockAt(ls, b, hi)
    ensures FirstMatch(ls, b) < hi < |ls|
  {
  }

  lemma LitFirstIs(ls: seq<string>, b: string, n: nat)
    requires n <= |ls|
    requires forall i | 0 <= i < n :: !LitMatches(ls[i], b)
    requires n < |ls| ==> LitMatches(ls[n], b)
    ensures LitFirst(ls, b) == n
  {
    hide LitMatches, LitFirst;
    var r := LitFirst(ls, b);
    assert r <= |ls|;
  }

  lemma OtherKeyNoLit(line: string, k: string, b: string)
    requires IsIdent(k) && IsIdent(b) && b != k && Matches(line, k)
    ensures !LitMatches(line, b)
  {
    hide Matches, IsIdent, LitMatches;
    if LitMatches(line, b) {
      LitMatchIsMatch(line, b);
      MatchesOneKey(line, k, b);
    }
  }

  // ---------- what a search meets in a written map ----------

  lemma ScanOne(line: string, k: string)
    ensures Scan([line], k) == ScanLine(line, k)
  {
    hide ScanLine;
    assert [line][1..] == [];
  }

  lemma CloseScan(j: string)
    ensures ScanLine("}", j) == Stopped
  {
    hide TrimBoth, Value, IndexOf, IsClose, TrimLeft, IsLine, IsSpace;
    CloseLine();
    var t := "}";
    assert |t| == 1 && t[0] == '}' && |"//"| == 2;
    IndexOfIs(t, '=', 1);
    assert ParseTrimmed(t) == Opaque;
  }

  /** A map entry is never an assignment of a variable name: its key begins with a quote. */
  lemma EntryScan(e: (string, string), j: string)
    requires IsIdent(j)
    ensures !ScanLine(EntryLine(e), j).Found?
  {
    hide TrimLeft, EntryLine, Value, IndexOf, KeepLength, First, IsLine;
    EntryLineIsEntry(e);
    var t := Trim(EntryLine(e));
    var s := TrimStart(EntryLine(e));
    assert s[0] == '"';
    if ParseTrimmed(t).Bind? {
      var lhs := t[..IndexOf(t, '=')];
      assert t[0] == s[0];
      assert !IsSpace('"');
      QuotedKey(lhs, j);
    }
  }

  lemma QuotedKey(lhs: string, j: string)
    requires IsIdent(j) && (lhs != [] ==> lhs[0] == '"')
    ensures Trim(lhs) != j
  {
    hide TrimBoth;
    var a, b := TrimBothSpan(lhs, IsSpace);
    assert j[0] in j;
    if a < b {
      assert lhs[0] == '"' && !IsSpace('"');
      assert a == 0;
      assert Trim(lhs)[0] == '"';
    }
  }

  /** No search for a variable name ends with a value among map entries. */
  lemma {:induction false} EntriesScan(m: Entries, j: string)
    requires IsIdent(j)
    ensures !Scan(EntryLines(m), j).Found?
  {
    hide EntryLine, ScanLine, IsIdent;
    if m != [] {
      var n := |m| - 1;
      EntriesScan(m[..n], j);
      EntryScan(m[n], j);
      ScanConcat(EntryLines(m[..n]), [EntryLine(m[n])], j);
      ScanOne(EntryLine(m[n]), j);
    }
  }

  /** A search for another key never gets past a map that goes over several lines. */
  lemma LongBlockScan(k: string, m: Entries, j: string)
    requires IsIdent(k) && IsIdent(j) && j != k
    ensures Scan(LongBlock(k, m), j) == Stopped
  {
    hide EntryLines, ScanLine, Header, IsIdent, Scan;
    var es := EntryLines(m);
    assert LongBlock(k, m) == [Header(k)] + (es + ["}"]);
    ScanConsumes(Header(k), es + ["}"], j);
    HeaderPasses(k, j);
    ScanConcat(es, ["}"], j);
    EntriesScan(m, j);
    ScanOne("}", j);
    CloseScan(j);
  }

  lemma HeaderPasses(k: string, j: string)
    requires IsIdent(k) && j != k
    ensures ScanLine(Header(k), j) == Passed
  {
    hide Header, Matches, Parse, IsIdent, LitMatches, IsLine, OpensBlock;
    HeaderLine(k);
  }

  lemma BlankPasses(j: string)
    ensures Scan([""], j) == Passed
  {
    hide Value;
    TrimBothEmpty("", IsSpace);
    assert [""][1..] == [];
  }
}
