/** How far a search of the reader gets in a text into which maps are written, and when the order of two
    edits does not matter. */
module TfvarsReach {
  import opened Wrappers
  import opened Text
  import opened Json
  import opened Tfvars
  import opened TfvarsScalar
  import opened TfvarsMap
  import opened TfvarsMapLaws

  /** A search for j ends above j's line, or finds what stands on it. */
  lemma ScanByAbove(ls: seq<string>, j: string)
    requires IsIdent(j)
    ensures Scan(ls, j) ==
            if CanonLine(ls, j).Some? && Above(ls, j).Passed? then ScanLine(CanonLine(ls, j).value, j) else Above(ls, j)
  {
    hide IsIdent, FirstMatch, Parse, Scan, TrimBoth, Matches;
    var p := FirstMatch(ls, j);
    assert ls == ls[..p] + ls[p..];
    ScanConcat(ls[..p], ls[p..], j);
    if p < |ls| {
      assert Matches(ls[p], j);
      MatchingLineBinds(ls[p], j);
      ParseTrim(ls[p]);
      assert ls[p..] == [ls[p]] + ls[p + 1..];
      ScanConsumes(ls[p], ls[p + 1..], j);
    } else {
      ScanNothing(ls[p..], j);
    }
  }

  lemma ParseTrim(l: string)
    ensures Parse(Trim(l)) == Parse(l)
  {
    hide TrimBoth, ParseTrimmed;
    TrimBothIdempotent(l, IsSpace);
  }

  lemma ScanNothing(ls: seq<string>, j: string)
    requires ls == []
    ensures Scan(ls, j) == Passed
  {
  }

  // ---------- which of two keys comes first ----------

  /** The one of two keys that some edits set first. */
  function Leader(edits: seq<Assignment>, b: string, j: string): Option<string> {
    if edits == [] then None
    else
      var n := |edits| - 1;
      var leader := Leader(edits[..n], b, j);
      if leader.Some? then leader else if edits[n].0 == b || edits[n].0 == j then Some(edits[n].0) else None
  }

  lemma {:induction false} LeaderConcat(x: seq<Assignment>, y: seq<Assignment>, b: string, j: string)
    ensures Leader(x + y, b, j) == if Leader(x, b, j).Some? then Leader(x, b, j) else Leader(y, b, j)
  {
    if y == [] {
      assert x + y == x;
    } else {
      assert (x + y)[..|x + y| - 1] == x + y[..|y| - 1];
      LeaderConcat(x, y[..|y| - 1], b, j);
    }
  }

  lemma LeaderOne(k: string, v: string, b: string, j: string)
    ensures Leader([(k, v)], b, j) == if k == b || k == j then Some(k) else None
  {
    assert [(k, v)][..0] == [];
  }

  /** The line at which an editor writes b, or the number of lines; the literal editor is the one that
      wants a space after `=`. */
  function Place(ls: seq<string>, b: string, literal: bool): (r: nat)
    ensures r <= |ls|
  {
    if literal then LitFirst(ls, b) else FirstMatch(ls, b)
  }

  /** After some edits b's place is above j's: it was so before, or neither had a line and the edits do
      not set j first. */
  predicate ComesFirst(ls: seq<string>, edits: seq<Assignment>, b: string, j: string, literal: bool) {
    var at, p := Place(ls, b, literal), FirstMatch(ls, j);
    if at < |ls| || p < |ls| then at < p else Leader(edits, b, j) != Some(j)
  }

  /** After some edits a search for j meets the place where b is written before it ends. */
  predicate Meets(ls: seq<string>, edits: seq<Assignment>, b: string, j: string, literal: bool) {
    ComesFirst(ls, edits, b, j, literal) && Scan(ls[..Place(ls, b, literal)], j).Passed?
  }

  lemma PlaceSetLine(ls: seq<string>, k: string, line: string, b: string, literal: bool)
    requires IsIdent(k) && IsIdent(b) && AssignsKey(line, k) && (literal ==> b != k)
    ensures var es, at := SetLine(ls, k, line), Place(ls, b, literal);
            Place(es, b, literal) == if at < |ls| || b == k then at else |es|
  {
    hide Matches, IsIdent, LitMatches, Parse, SetLine, FirstMatch, LitFirst;
    if literal {
      LitPlaceSetLine(ls, k, line, b);
    } else if b == k {
      SetLineSame(ls, k, line);
    } else {
      SetLineOther(ls, k, line, b);
    }
  }

  lemma LitPlaceSetLine(ls: seq<string>, k: string, line: string, b: string)
    requires IsIdent(k) && IsIdent(b) && Matches(line, k) && b != k
    ensures var es, at := SetLine(ls, k, line), LitFirst(ls, b);
            LitFirst(es, b) == if at < |ls| then at else |es|
  {
    hide Matches, IsIdent, LitMatches, SetLine, FirstMatch, LitFirst;
    var es, at, n := SetLine(ls, k, line), LitFirst(ls, b), FirstMatch(ls, k);
    SetLineAt(ls, k, line);
    OtherKeyNoLit(line, k, b);
    if n < |ls| {
      assert Matches(ls[n], k);
      OtherKeyNoLit(ls[n], k, b);
    }
    LitFirstIs(es, b, if at < |ls| then at else |es|);
  }

  /** An edit changes nothing that a search for j meets above j's place. */
  lemma ScanTop(ls: seq<string>, k: string, line: string, n: nat, j: string)
    requires IsIdent(k) && AssignsKey(line, k) && n <= FirstMatch(ls, j)
    ensures n <= |SetLine(ls, k, line)| && Scan(SetLine(ls, k, line)[..n], j) == Scan(ls[..n], j)
  {
    hide Matches, IsIdent, Parse, SetLine, FirstMatch, Scan;
    SetLineAt(ls, k, line);
    if FirstMatch(ls, k) < n {
      SetLinePrefix(ls, k, line, n);
      ScanSetLineOther(ls[..n], k, line, j);
    } else {
      assert SetLine(ls, k, line)[..n] == ls[..n];
    }
  }

  lemma MeetsSetLine(ls: seq<string>, k: string, line: string, v: string, rest: seq<Assignment>, b: string,
      j: string, literal: bool)
    requires IsIdent(k) && IsIdent(b) && IsIdent(j) && b != j && AssignsKey(line, k) && (literal ==> b != k)
    ensures Meets(SetLine(ls, k, line), rest, b, j, literal) == Meets(ls, [(k, v)] + rest, b, j, literal)
  {
    hide AssignsKey, IsIdent, SetLine, FirstMatch, Scan, Place, Leader;
    var es, at, p := SetLine(ls, k, line), Place(ls, b, literal), FirstMatch(ls, j);
    PlaceSetLine(ls, k, line, b, literal);
    PlaceOf(ls, es, j);
    PlaceSetLine(ls, k, line, j, false);
    SetLineAt(ls, k, line);
    LeaderConcat([(k, v)], rest, b, j);
    LeaderOne(k, v, b, j);
    if at < |ls| {
      if at < p { ScanTop(ls, k, line, at, j); }
    } else if p == |ls| {
      if k == b {
        SetLineLast(ls, k, line, literal);
      } else if k != j {
        ScanSetLineOther(ls, k, line, j);
        assert es[..|es|] == es && ls[..|ls|] == ls;
      }
    }
  }

  lemma PlaceOf(ls: seq<string>, es: seq<string>, j: string)
    ensures Place(ls, j, false) == FirstMatch(ls, j) && Place(es, j, false) == FirstMatch(es, j)
  {
  }

  lemma SetLineLast(ls: seq<string>, k: string, line: string, literal: bool)
    requires Place(ls, k, literal) == |ls| && !literal
    ensures SetLine(ls, k, line) == ls + [line]
    ensures SetLine(ls, k, line)[..|ls|] == ls && ls[..|ls|] == ls
  {
    hide FirstMatch;
  }

  lemma LitMatchesStripCr(l: string, k: string)
    ensures LitMatches(StripCr(l), k) == LitMatches(l, k)
  {
    hide TrimLeft;
    if EndsInCr(l) {
      var m := StripCr(l);
      var t := TrimStart(l);
      if t == [] {
        TrimLeftIs(m, IsSpace, |m|);
      } else {
        var n := |l| - |t|;
        assert n < |m| by { assert !IsSpace(l[n]); }
        TrimLeftIs(m, IsSpace, n);
        assert TrimStart(m) == t[..|t| - 1];
        var p := k + " = ";
        assert p[|p| - 1] == ' ' && t[|t| - 1] == '\r';
      }
    }
  }

  lemma PlaceStripCrs(ls: seq<string>, b: string, literal: bool)
    requires IsIdent(b)
    ensures Place(StripCrs(ls), b, literal) == Place(ls, b, literal)
  {
    hide LitMatches, IsIdent, LitFirst, FirstMatch;
    FirstMatchStripCrs(ls, b);
    forall i | 0 <= i < |ls| ensures LitMatches(StripCrs(ls)[i], b) == LitMatches(ls[i], b) {
      LitMatchesStripCr(ls[i], b);
    }
    var at := LitFirst(ls, b);
    assert at <= |ls|;
    LitFirstIs(StripCrs(ls), b, at);
  }

  lemma MeetsStripCrs(ls: seq<string>, edits: seq<Assignment>, b: string, j: string, literal: bool)
    requires IsIdent(b) && IsIdent(j)
    ensures Meets(StripCrs(ls), edits, b, j, literal) == Meets(ls, edits, b, j, literal)
  {
    hide IsIdent, FirstMatch, Scan, Place, Leader, StripCrs;
    var at := Place(ls, b, literal);
    PlaceStripCrs(ls, b, literal);
    FirstMatchStripCrs(ls, j);
    ScanStripCrs(ls[..at], j);
    assert StripCrs(ls)[..at] == StripCrs(ls[..at]);
  }

  /** Whether a search meets b's place can be told before the edits are made. */
  lemma {:induction false} MeetsRun(c: string, edits: seq<Assignment>, rest: seq<Assignment>, b: string, j: string,
      literal: bool)
    requires IdentKeys(edits) && IsIdent(b) && IsIdent(j) && b != j && (literal ==> LastValue(edits, b) == None)
    ensures Meets(Lines(Run(c, edits)), rest, b, j, literal) == Meets(Lines(c), edits + rest, b, j, literal)
  {
    hide Lines, Replace, IsIdent, Meets, AssignsKey, SetLine, RenderScalar, StripCrs;
    if edits == [] {
      assert edits + rest == rest;
    } else {
      var n := |edits| - 1;
      var d, k, v := Run(c, edits[..n]), edits[n].0, edits[n].1;
      assert edits[n] in edits;
      MeetsRun(c, edits[..n], [(k, v)] + rest, b, j, literal);
      assert edits[..n] + ([(k, v)] + rest) == edits + rest;
      LinesOfReplace(d, k, v);
      MeetsSetLine(Lines(d), k, RenderScalar(k, v), v, rest, b, j, literal);
      MeetsStripCrs(SetLine(Lines(d), k, RenderScalar(k, v)), rest, b, j, literal);
    }
  }

  /** Once a scalar edit has set b, both editors find it at the same line. */
  lemma LitPlaceSet(c: string, edits: seq<Assignment>, b: string)
    requires IdentKeys(edits) && IsIdent(b) && LastValue(edits, b).Some?
    ensures LitFirst(Lines(Run(c, edits)), b) == FirstMatch(Lines(Run(c, edits)), b)
  {
    hide Lines, Run, IsIdent, FirstMatch, LitFirst, LitMatches, Matches, TrimRight, TrimLeft, Quote;
    var es := Lines(Run(c, edits));
    var i := FirstMatch(es, b);
    RunCanonLine(c, edits, b);
    assert i < |es|;
    var t := TrimStart(es[i]);
    assert TrimEnd(t) == RenderScalar(b, LastValue(edits, b).value);
    assert b + " = " <= RenderScalar(b, LastValue(edits, b).value) <= t;
    assert LitMatches(es[i], b) by { LitMatchesIs(es[i], b); }
    forall n | 0 <= n < i ensures !LitMatches(es[n], b) {
      if LitMatches(es[n], b) { LitMatchIsMatch(es[n], b); }
    }
    LitFirstIs(es, b, i);
  }

  lemma LitMatchesIs(l: string, b: string)
    requires b + " = " <= TrimStart(l)
    ensures LitMatches(l, b)
  {
  }

  // ---------- a map of several lines is written ----------

  /** A map of several lines at a place that a search for j meets stops the search; anywhere else it does
      not matter to the search. */
  lemma SpliceReach(ls: seq<string>, at: nat, filler: seq<string>, b: string, m: Entries, below: seq<string>, j: string)
    requires IsIdent(b) && IsIdent(j) && b != j && at <= |ls| && filler in {[], [""]}
    requires at == FirstMatch(ls, j) ==> at == |ls|
    ensures var es, p := ls[..at] + (filler + LongBlock(b, m)) + below, FirstMatch(ls, j);
            Above(es, j) == (if at <= p && Scan(ls[..at], j).Passed? then Stopped else Above(ls, j)) &&
            (Above(es, j).Passed? ==> CanonLine(es, j) == CanonLine(ls, j))
  {
    hide Matches, IsIdent, FirstMatch, Scan, LongBlock, TrimBoth;
    var block, p := filler + LongBlock(b, m), FirstMatch(ls, j);
    var es := ls[..at] + block + below;
    if p < at {
      SameTop(ls, es, p, j);
    } else {
      FillerAssignsNothing(filler, b, m, j);
      hide NoneAssigns;
      NoneAbove(ls, at, j);
      FirstMatchConcat(ls[..at] + block, below, j);
      FirstMatchNone(ls[..at], block, j);
      var rest := below[..FirstMatch(below, j)];
      assert es[..FirstMatch(es, j)] == ls[..at] + (block + rest);
      ScanConcat(ls[..at], block + rest, j);
      ScanConcat(block, rest, j);
      FillerStops(filler, b, m, j);
      assert ls[..p] == ls[..at] + ls[at..p];
      ScanConcat(ls[..at], ls[at..p], j);
    }
  }

  lemma SameTop(ls: seq<string>, es: seq<string>, p: nat, j: string)
    requires p == FirstMatch(ls, j) && p < |ls| && p < |es| && es[..p + 1] == ls[..p + 1]
    ensures FirstMatch(es, j) == p && Above(es, j) == Above(ls, j) && CanonLine(es, j) == CanonLine(ls, j)
  {
    hide Matches, FirstMatch, Scan, TrimBoth;
    assert forall i | 0 <= i <= p :: es[i] == es[..p + 1][i] && ls[i] == ls[..p + 1][i];
    FirstMatchIs(es, j, p);
    assert es[..p] == ls[..p];
  }

  lemma NoneAbove(ls: seq<string>, at: nat, j: string)
    requires at <= FirstMatch(ls, j)
    ensures NoneAssigns(ls[..at], j)
  {
    hide Matches, FirstMatch;
  }

  lemma FirstMatchNone(a: seq<string>, b: seq<string>, j: string)
    requires NoneAssigns(a, j) && NoneAssigns(b, j)
    ensures FirstMatch(a + b, j) == |a + b|
  {
    hide Matches, FirstMatch;
    FirstMatchIs(a + b, j, |a + b|);
  }

  lemma FillerAssignsNothing(filler: seq<string>, b: string, m: Entries, j: string)
    requires IsIdent(b) && IsIdent(j) && b != j && filler in {[], [""]}
    ensures NoneAssigns(filler + LongBlock(b, m), j)
  {
    hide Matches, IsIdent, LongBlock;
    BlockAssignsOnly(b, m, j);
    BlankAssignsNothing(j);
    assert forall i | 0 <= i < |filler| :: filler[i] == [""][i];
  }

  lemma FillerStops(filler: seq<string>, b: string, m: Entries, j: string)
    requires IsIdent(b) && IsIdent(j) && b != j && filler in {[], [""]}
    ensures Scan(filler + LongBlock(b, m), j) == Stopped
  {
    hide IsIdent, LongBlock, Scan;
    LongBlockScan(b, m, j);
    if filler == [] {
      assert filler + LongBlock(b, m) == LongBlock(b, m);
    } else {
      ScanConcat(filler, LongBlock(b, m), j);
      BlankPasses(j);
    }
  }

  /** No line is the place of two keys. */
  lemma PlacesDiffer(ls: seq<string>, b: string, j: string, literal: bool)
    requires IsIdent(b) && IsIdent(j) && b != j && Place(ls, b, literal) == FirstMatch(ls, j)
    ensures FirstMatch(ls, j) == |ls|
  {
    hide Matches, IsIdent, LitMatches;
    var p := FirstMatch(ls, j);
    if p < |ls| {
      if literal { LitMatchIsMatch(ls[p], b); }
      MatchesOneKey(ls[p], b, j);
    }
  }

  lemma MeetsNow(ls: seq<string>, b: string, j: string, literal: bool)
    requires IsIdent(b) && IsIdent(j) && b != j
    ensures Meets(ls, [], b, j, literal) <==>
            Place(ls, b, literal) <= FirstMatch(ls, j) && Scan(ls[..Place(ls, b, literal)], j).Passed?
  {
    hide IsIdent, FirstMatch, Place, Scan;
    if Place(ls, b, literal) == FirstMatch(ls, j) { PlacesDiffer(ls, b, j, literal); }
  }

  /** What the map editor does to a search for another key. */
  lemma MapReach(c: string, b: string, m: Entries, j: string)
    requires IsIdent(b) && IsIdent(j) && b != j && m != []
    ensures var es, ls := Lines(ReplaceMap(c, b, m)), Lines(c);
            Above(es, j) == (if Meets(ls, [], b, j, false) then Stopped else Above(ls, j)) &&
            (Above(es, j).Passed? ==> CanonLine(es, j) == CanonLine(ls, j))
  {
    hide Lines, ReplaceMap, IsIdent, FirstMatch, Scan, LongBlock, KeptBelow, Meets, Above, CanonLine, StripCrs;
    var ls, block := Lines(c), LongBlock(b, m);
    var q := FirstMatch(ls, b);
    assert Place(ls, b, false) == q;
    MeetsNow(ls, b, j, false);
    if q == FirstMatch(ls, j) { PlacesDiffer(ls, b, j, false); }
    SpliceReach(ls, q, [], b, m, KeptBelow(ls, q), j);
    assert [] + block == block;
    LinesOfSetBlock(c, b, m);
    AboveStripCrs(SetBlock(ls, b, block), j);
    CanonLineStripCrs(SetBlock(ls, b, block), j);
  }

  /** If the search does not meet the map, what it meets of a third key is as before. */
  lemma MapMeets(c: string, b: string, m: Entries, rest: seq<Assignment>, s: string, j: string, literal: bool)
    requires IsIdent(b) && IsIdent(j) && IsIdent(s) && b != j && s != j && s != b && m != []
    requires !Meets(Lines(c), [], b, j, false)
    ensures Meets(Lines(ReplaceMap(c, b, m)), rest, s, j, literal) == Meets(Lines(c), rest, s, j, literal)
  {
    hide Lines, ReplaceMap, IsIdent, FirstMatch, Scan, LongBlock, KeptBelow, Meets, StripCrs;
    var ls, block := Lines(c), LongBlock(b, m);
    var q, p := FirstMatch(ls, b), FirstMatch(ls, j);
    var es := SetBlock(ls, b, block);
    assert Place(ls, b, false) == q;
    MeetsNow(ls, b, j, false);
    if p < q {
      assert es[..p + 1] == ls[..p + 1];
      MeetsAbove(ls, es, rest, s, j, literal);
    } else {
      assert es[..q] == ls[..q];
      MeetsNoFurther(ls, es, q, rest, s, j, literal);
    }
    LinesOfSetBlock(c, b, m);
    MeetsStripCrs(es, rest, s, j, literal);
  }

  /** In two texts with the same top an editor finds its line at the same place there, or below. */
  lemma PlaceSameTop(ls: seq<string>, es: seq<string>, n: nat, s: string, literal: bool)
    requires n <= |ls| && n <= |es| && es[..n] == ls[..n]
    ensures var x, y := Place(ls, s, literal), Place(es, s, literal); if x < n then y == x else n <= y
  {
    hide Matches, LitMatches;
    assert forall i | 0 <= i < n :: es[i] == es[..n][i] && ls[i] == ls[..n][i];
    var x, y := Place(ls, s, literal), Place(es, s, literal);
    if literal {
      assert x < n ==> LitMatches(es[x], s);
      assert y < n ==> LitMatches(ls[y], s);
    } else {
      assert x < n ==> Matches(es[x], s);
      assert y < n ==> Matches(ls[y], s);
    }
  }

  lemma MeetsAbove(ls: seq<string>, es: seq<string>, rest: seq<Assignment>, s: string, j: string, literal: bool)
    requires IsIdent(s) && IsIdent(j) && s != j
    requires var p := FirstMatch(ls, j); p < |ls| && p < |es| && es[..p + 1] == ls[..p + 1]
    ensures Meets(es, rest, s, j, literal) == Meets(ls, rest, s, j, literal)
  {
    hide IsIdent, FirstMatch, Scan, Place;
    var p, x, y := FirstMatch(ls, j), Place(ls, s, literal), Place(es, s, literal);
    SameTop(ls, es, p, j);
    PlaceSameTop(ls, es, p + 1, s, literal);
    if x <= p { assert es[..y] == es[..p + 1][..y] == ls[..x]; }
  }

  lemma MeetsNoFurther(ls: seq<string>, es: seq<string>, q: nat, rest: seq<Assignment>, s: string, j: string,
      literal: bool)
    requires IsIdent(s) && IsIdent(j) && s != j
    requires q <= FirstMatch(ls, j) && q <= |es| && es[..q] == ls[..q] && !Scan(ls[..q], j).Passed?
    ensures Meets(es, rest, s, j, literal) == Meets(ls, rest, s, j, literal)
  {
    hide IsIdent, Scan, Place, FirstMatch;
    var x, y := Place(ls, s, literal), Place(es, s, literal);
    PlaceSameTop(ls, es, q, s, literal);
    PlaceSameTop(ls, es, q, j, false);
    PlaceOf(ls, es, j);
    if x < q {
      assert es[..y] == es[..q][..y] == ls[..x];
    } else {
      assert ls[..x] == ls[..q] + ls[q..x] && es[..y] == ls[..q] + es[q..y];
      ScanConcat(ls[..q], ls[q..x], j);
      ScanConcat(ls[..q], es[q..y], j);
    }
  }

  // ---------- the literal editor ----------

  lemma LiteralLinesReach(c: string, b: string, m: Entries, j: string)
    requires IsIdent(b) && IsIdent(j) && b != j
    ensures var x, ls := LiteralLines(c, b, m), Lines(c);
            Above(x, j) == (if Meets(ls, [], b, j, true) then Stopped else Above(ls, j)) &&
            (Above(x, j).Passed? ==> CanonLine(x, j) == CanonLine(ls, j))
  {
    hide Lines, IsIdent, FirstMatch, LitFirst, Scan, LongBlock, LitKeptBelow, Meets, Above, CanonLine;
    var ls, block, x := Lines(c), LongBlock(b, m), LiteralLines(c, b, m);
    var at := LitFirst(ls, b);
    assert Place(ls, b, true) == at;
    MeetsNow(ls, b, j, true);
    if at == FirstMatch(ls, j) { PlacesDiffer(ls, b, j, true); }
    var filler := if at == |ls| && Unterminated(c) then [""] else [];
    var below := if at < |ls| then LitKeptBelow(ls, at) else [];
    SpliceReach(ls, at, filler, b, m, below, j);
    assert x == ls[..at] + (filler + block) + below;
  }

  lemma AboveBlank(ls: seq<string>, j: string)
    requires IsIdent(j)
    ensures Above(ls + [""], j) == Above(ls, j) && CanonLine(ls + [""], j) == CanonLine(ls, j)
  {
    hide IsIdent, FirstMatch, Scan, CanonLine, NoneAssigns;
    BlankAssignsNothing(j);
    CanonLineConcat(ls, [""], j);
    CanonLineNone([""], j);
    FirstMatchConcat(ls, [""], j);
    FirstMatchNone([], [""], j) by { NoneAssignsNothing(j); }
    assert [] + [""] == [""];
    var p := FirstMatch(ls, j);
    if p < |ls| {
      assert (ls + [""])[..p] == ls[..p];
    } else {
      assert (ls + [""])[..p + 1] == ls + [""] && ls[..p] == ls;
      ScanConcat(ls, [""], j);
      BlankPasses(j);
    }
  }

  /** What the literal editor does to a search for another key. */
  lemma LiteralReach(c: string, b: string, m: Entries, j: string)
    requires IsIdent(b) && IsIdent(j) && b != j
    ensures var es, ls := Lines(ReplaceLiteral(c, b, RenderMap(m))), Lines(c);
            Above(es, j) == (if Meets(ls, [], b, j, true) then Stopped else Above(ls, j)) &&
            (Above(es, j).Passed? ==> CanonLine(es, j) == CanonLine(ls, j))
  {
    hide Lines, ReplaceLiteral, IsIdent, LiteralLines, RenderMap, Meets, Above, CanonLine, StripCrs;
    var x := LiteralLines(c, b, m);
    LiteralLinesReach(c, b, m, j);
    LinesOfLiteral(c, b, m);
    AboveStripCrs(x, j);
    CanonLineStripCrs(x, j);
    AboveBlank(Lines(ReplaceLiteral(c, b, RenderMap(m))), j);
  }

  // ---------- the order of edits ----------

  /** The map of b is tidy, and its header has no stray carriage return. */
  predicate Settled(ls: seq<string>, b: string) {
    Tidy(ls, b) && (FirstMatch(ls, b) < |ls| ==> !EndsInCr(ls[FirstMatch(ls, b)]))
  }

  /** Where the replaced map ends, before and after an edit of another key. */
  lemma KeptBelowSetLine(ls: seq<string>, k: string, line: string, b: string) returns (hi: nat)
    requires IsIdent(k) && IsIdent(b) && b != k && Matches(line, k) && Tidy(ls, b) && FirstMatch(ls, b) < |ls|
    ensures var q, es := FirstMatch(ls, b), SetLine(ls, k, line);
            q < hi <= |ls| && KeptBelow(ls, q) == ls[hi..] && NoneAssigns(ls[q..hi], k) &&
            FirstMatch(es, b) == q && hi <= |es| && KeptBelow(es, q) == es[hi..]
  {
    hide Matches, IsIdent, FirstMatch, IsEntry, IsClose, OpensBlock, SetLine, KeptBelow, NoneAssigns;
    var q, es := FirstMatch(ls, b), SetLine(ls, k, line);
    SetLineOther(ls, k, line, b);
    SetLineAt(ls, k, line);
    if Matches(ls[q], k) { MatchesOneKey(ls[q], b, k); }
    if OpensBlock(ls[q]) {
      var h :| q < h < |ls| && IsBlockAt(ls, b, h);
      hi := h + 1;
      BlockKeptBelow(ls, b, h);
      BlockSetLine(ls, k, line, b, h);
      BlockKeptBelow(es, b, h);
      QuotedLineIsNoAssignment(ls[h], k);
      DroppedLines(ls, q, h, k);
    } else {
      hi := q + 1;
      OneDropped(ls, q, k);
      KeptAfterLine(es, q);
    }
  }

  lemma KeptAfterLine(ls: seq<string>, q: nat)
    requires q < |ls| && !OpensBlock(ls[q])
    ensures KeptBelow(ls, q) == ls[q + 1..]
  {
  }

  /** Line by line, editing a scalar and replacing a map that is there commute. */
  lemma SetBlockCommutes(ls: seq<string>, k: string, line: string, b: string, block: seq<string>)
    requires IsIdent(k) && IsIdent(b) && b != k && Matches(line, k) && Tidy(ls, b) && FirstMatch(ls, b) < |ls|
    requires NoneAssigns(block, k)
    ensures SetBlock(SetLine(ls, k, line), b, block) == SetLine(SetBlock(ls, b, block), k, line)
  {
    hide Matches, IsIdent, FirstMatch, KeptBelow, Tidy, NoneAssigns, SetLine;
    var q, es := FirstMatch(ls, b), SetLine(ls, k, line);
    var hi := KeptBelowSetLine(ls, k, line, b);
    var above, dropped, below := ls[..q], ls[q..hi], ls[hi..];
    assert ls == above + (dropped + below);
    assert SetBlock(ls, b, block) == above + (block + below);
    SpliceCommutes(above, dropped, below, block, k, line);
  }

  lemma SpliceCommutes(above: seq<string>, dropped: seq<string>, below: seq<string>, block: seq<string>, k: string,
      line: string)
    requires NoneAssigns(dropped, k) && NoneAssigns(block, k)
    ensures var es, n := SetLine(above + (dropped + below), k, line), |above| + |dropped|;
            n <= |es| && es[..|above|] + block + es[n..] == SetLine(above + (block + below), k, line)
  {
    hide Matches, FirstMatch, SetLine, NoneAssigns;
    var es := SetLine(above + (dropped + below), k, line);
    SetLineAround(above, dropped, below, k, line);
    SetLineAround(above, block, below, k, line);
    if FirstMatch(above, k) < |above| {
      SetLineAt(above, k, line);
      SwapMiddle(SetLine(above, k, line), dropped, block, below, es);
    } else {
      SwapMiddle(above, dropped, block, SetLine(below, k, line), es);
    }
  }

  lemma SwapMiddle(a: seq<string>, d: seq<string>, r: seq<string>, z: seq<string>, es: seq<string>)
    requires es == a + (d + z)
    ensures es[..|a|] + r + es[|a| + |d|..] == a + (r + z)
  {
    assert es[..|a|] == a && es[|a| + |d|..] == z;
  }

  lemma SetLineAround(a: seq<string>, d: seq<string>, z: seq<string>, k: string, line: string)
    requires NoneAssigns(d, k)
    ensures SetLine(a + (d + z), k, line) ==
            if FirstMatch(a, k) < |a| then SetLine(a, k, line) + (d + z) else a + (d + SetLine(z, k, line))
  {
    hide Matches, FirstMatch, SetLine;
    assert FirstMatch(d, k) == |d| by { FirstMatchIs(d, k, |d|); }
    hide NoneAssigns;
    SetLineConcat(a, d + z, k, line);
    SetLineConcat(d, z, k, line);
  }

  lemma SetLineConcat(a: seq<string>, z: seq<string>, k: string, line: string)
    ensures SetLine(a + z, k, line) ==
            if FirstMatch(a, k) < |a| then SetLine(a, k, line) + z else a + SetLine(z, k, line)
  {
    hide FirstMatch, Matches;
    FirstMatchConcat(a, z, k);
    if FirstMatch(a, k) < |a| {
      SpliceLeft(a, z, FirstMatch(a, k), line);
    } else {
      SpliceRight(a, z, FirstMatch(z, k), line);
    }
  }

  lemma SpliceLeft(a: seq<string>, z: seq<string>, i: nat, line: string)
    requires i < |a|
    ensures (a + z)[..i] + [line] + Drop(a + z, i + 1) == a[..i] + [line] + Drop(a, i + 1) + z
  {
    assert (a + z)[..i] == a[..i] && (a + z)[i + 1..] == a[i + 1..] + z;
  }

  lemma SpliceRight(a: seq<string>, z: seq<string>, n: nat, line: string)
    requires n <= |z|
    ensures (a + z)[..|a| + n] + [line] + Drop(a + z, |a| + n + 1) == a + (z[..n] + [line] + Drop(z, n + 1))
  {
    assert (a + z)[..|a| + n] == a + z[..n];
    assert Drop(a + z, |a| + n + 1) == Drop(z, n + 1);
  }

  lemma NothingToStrip()
    ensures AllLines([]) && StripCrs([]) == []
  {
  }

  lemma SettledStripCrs(ls: seq<string>, b: string, block: seq<string>)
    requires IsIdent(b) && Settled(ls, b) && AllLines(block)
    ensures Settled(StripCrs(ls), b)
    ensures SetBlock(StripCrs(ls), b, block) == StripCrs(SetBlock(ls, b, block))
  {
    hide IsIdent, FirstMatch, IsBlockAt, OpensBlock, AfterClose, StripCrs, AllLines, OneLine;
    var q, es := FirstMatch(ls, b), StripCrs(ls);
    FirstMatchStripCrs(ls, b);
    assert es[..q] == StripCrs(ls[..q]);
    if q < |ls| {
      assert es[q] == ls[q];
      if OpensBlock(ls[q]) {
        var hi :| q < hi < |ls| && IsBlockAt(ls, b, hi);
        BlockStripCrs(ls, b, hi);
        BlockKeptBelow(ls, b, hi);
        BlockKeptBelow(es, b, hi);
        assert es[hi + 1..] == StripCrs(ls[hi + 1..]);
      } else {
        assert es[q + 1..] == StripCrs(ls[q + 1..]);
      }
    } else {
      NothingToStrip();
    }
    StripThree(ls[..q], block, KeptBelow(ls, q));
  }

  lemma SettledReplace(c: string, k: string, v: string, b: string)
    requires IsIdent(k) && IsIdent(b) && b != k && Settled(Lines(c), b) && FirstMatch(Lines(c), b) < |Lines(c)|
    ensures Settled(Lines(Replace(c, k, v)), b) && FirstMatch(Lines(Replace(c, k, v)), b) < |Lines(Replace(c, k, v))|
  {
    hide Lines, Replace, IsIdent, SetLine, RenderScalar, Matches, FirstMatch, Tidy, StripCrs, Parse;
    var ls, line := Lines(c), RenderScalar(k, v);
    var es := SetLine(ls, k, line);
    LinesOfReplace(c, k, v);
    TidySetLine(ls, k, line, b);
    SetLineOther(ls, k, line, b);
    SettledStripCrs(es, b, []) by { NothingToStrip(); }
    FirstMatchStripCrs(es, b);
  }

  /** Two editors work in either order if the map already has a line. */
  lemma EditsCommute(c: string, k: string, v: string, b: string, m: Entries)
    requires IsIdent(k) && IsIdent(b) && b != k && Settled(Lines(c), b) && FirstMatch(Lines(c), b) < |Lines(c)|
    ensures ReplaceMap(Replace(c, k, v), b, m) == Replace(ReplaceMap(c, b, m), k, v)
  {
    hide Lines, IsIdent, SetLine, RenderScalar, Matches, FirstMatch, Tidy, StripCrs, Block, SetBlock, Unlines, Parse,
      AllLines;
    var ls, line, block := Lines(c), RenderScalar(k, v), Block(b, m);
    var es := SetLine(ls, k, line);
    LinesOfReplace(c, k, v);
    ScalarLine(k, v);
    LinesOfSetBlock(c, b, m);
    BlockLines(b, m);
    BlockAssignsOnly(b, m, k);
    TidySetLine(ls, k, line, b);
    SetLineOther(ls, k, line, b);
    SettledStripCrs(es, b, block);
    SetBlockCommutes(ls, k, line, b, block);
    SetLineCommutesStripCrs(SetBlock(ls, b, block), k, line);
  }

  /** Any run of edits of other keys can be made after the map edit instead of before it. */
  lemma {:induction false} RunCommutes(c: string, edits: seq<Assignment>, b: string, m: Entries)
    requires IdentKeys(edits) && LastValue(edits, b) == None && IsIdent(b)
    requires Settled(Lines(c), b) && FirstMatch(Lines(c), b) < |Lines(c)|
    ensures ReplaceMap(Run(c, edits), b, m) == Run(ReplaceMap(c, b, m), edits)
    ensures var es := Lines(Run(c, edits)); Settled(es, b) && FirstMatch(es, b) < |es|
  {
    hide Lines, Replace, ReplaceMap, IsIdent, Settled, FirstMatch;
    if edits != [] {
      var n := |edits| - 1;
      var d, k, v := Run(c, edits[..n]), edits[n].0, edits[n].1;
      assert edits[n] in edits;
      RunCommutes(c, edits[..n], b, m);
      EditsCommute(d, k, v, b, m);
      SettledReplace(d, k, v, b);
    }
  }
}
