/** Laws of the scalar editor `replace_tfvars_assignment` and of any run of scalar edits. */
module TfvarsScalar {
  import opened Wrappers
  import opened Text
  import opened Json
  import opened Tfvars

  /** What the search for k has come to where k's line is or would be. */
  function Above(ls: seq<string>, k: string): Search { Scan(ls[..FirstMatch(ls, k)], k) }

  /** The reader gets as far as the place where k is (or would be) written: no live line above it
      lacks `=`, and none assigns k in a spelling the editors do not recognise. */
  predicate Visible(ls: seq<string>, k: string) { Above(ls, k).Passed? }

  /** The first line that assigns k, without its padding. */
  function CanonLine(ls: seq<string>, k: string): Option<string> {
    var i := FirstMatch(ls, k);
    if i < |ls| then Some(Trim(ls[i])) else None
  }

  function CountMatches(ls: seq<string>, k: string): nat {
    if ls == [] then 0 else (if Matches(ls[0], k) then 1 else 0) + CountMatches(ls[1..], k)
  }

  function Max(a: nat, b: nat): nat { if a < b then b else a }

  // ---------- one edit, line by line ----------

  /** A line that assigns k, for the editors and for the reader. */
  predicate AssignsKey(line: string, k: string) {
    Matches(line, k) && Parse(line).Bind? && Parse(line).key == k
  }

  /** An edit changes one line, or adds one at the end. */
  lemma SetLineAt(ls: seq<string>, k: string, line: string)
    ensures var es, i := SetLine(ls, k, line), FirstMatch(ls, k);
            |es| == (if i < |ls| then |ls| else |ls| + 1) &&
            forall n | 0 <= n < |es| :: es[n] == if n == i then line else ls[n]
  {
    hide FirstMatch;
  }

  /** An edit leaves the first line of every other key where it is, if there is one. */
  lemma SetLineOther(ls: seq<string>, k: string, line: string, j: string)
    requires IsIdent(k) && IsIdent(j) && j != k && Matches(line, k)
    ensures var es, n := SetLine(ls, k, line), FirstMatch(ls, j);
            FirstMatch(es, j) == (if n < |ls| then n else |es|) &&
            (n < |ls| ==> n < |es| && es[n] == ls[n])
  {
    hide Matches, IsIdent;
    var es, n, i := SetLine(ls, k, line), FirstMatch(ls, j), FirstMatch(ls, k);
    if Matches(line, j) { MatchesOneKey(line, j, k); }
    if i == n && n < |ls| { MatchesOneKey(ls[n], j, k); }
    FirstMatchIs(es, j, if n < |ls| then n else |es|);
  }

  lemma SetLineSame(ls: seq<string>, k: string, line: string)
    requires Matches(line, k)
    ensures FirstMatch(SetLine(ls, k, line), k) == FirstMatch(ls, k)
  {
    hide Matches;
    FirstMatchIs(SetLine(ls, k, line), k, FirstMatch(ls, k));
  }

  lemma SetLineTwice(ls: seq<string>, k: string, line1: string, line2: string)
    requires Matches(line1, k)
    ensures SetLine(SetLine(ls, k, line1), k, line2) == SetLine(ls, k, line2)
  {
    hide Matches;
    SetLineSame(ls, k, line1);
  }

  /** What the search for j meets from the edited place on. */
  lemma ScanSetLine(ls: seq<string>, k: string, line: string, j: string)
    ensures var i := FirstMatch(ls, k);
            var above, below := Scan(ls[..i], j), Scan(Drop(ls, i + 1), j);
            Scan(SetLine(ls, k, line), j) ==
              (if !above.Passed? then above
               else if !ScanLine(line, j).Passed? then ScanLine(line, j) else below) &&
            Scan(ls, j) ==
              (if !above.Passed? then above
               else if i < |ls| && !ScanLine(ls[i], j).Passed? then ScanLine(ls[i], j) else below)
  {
    hide Matches, ScanLine;
    var i := FirstMatch(ls, k);
    var below := Drop(ls, i + 1);
    assert ls[..i] + [line] + below == ls[..i] + ([line] + below);
    ScanConcat(ls[..i], [line] + below, j);
    ScanConsumes(line, below, j);
    if i < |ls| {
      assert ls == ls[..i] + ([ls[i]] + below);
      ScanConcat(ls[..i], [ls[i]] + below, j);
      ScanConsumes(ls[i], below, j);
    } else {
      assert ls == ls[..i];
    }
  }

  lemma ScanConsumes(line: string, rest: seq<string>, j: string)
    ensures Scan([line] + rest, j) ==
            if ScanLine(line, j).Passed? then Scan(rest, j) else ScanLine(line, j)
  {
    hide ScanLine;
    assert ([line] + rest)[1..] == rest;
  }

  lemma ScanSetLineOther(ls: seq<string>, k: string, line: string, j: string)
    requires IsIdent(k) && j != k && AssignsKey(line, k)
    ensures Scan(SetLine(ls, k, line), j) == Scan(ls, j)
  {
    hide Matches, Parse, IsIdent;
    var i := FirstMatch(ls, k);
    ScanSetLine(ls, k, line, j);
    if i < |ls| { MatchingLineBinds(ls[i], k); }
  }

  lemma ScanSetLineSame(ls: seq<string>, k: string, line: string)
    requires IsIdent(k) && AssignsKey(line, k)
    ensures Scan(SetLine(ls, k, line), k) ==
            if Visible(ls, k) then Found(Parse(line).value) else Scan(ls, k)
  {
    hide Matches, Parse, IsIdent;
    ScanSetLine(ls, k, line, k);
  }

  /** No edit changes how far the search for a key gets: none makes a key visible that was not, or hides
      one that was. */
  lemma AboveSetLine(ls: seq<string>, k: string, line: string, j: string)
    requires IsIdent(k) && IsIdent(j) && AssignsKey(line, k)
    ensures Above(SetLine(ls, k, line), j) == Above(ls, j)
  {
    hide Matches, Parse, IsIdent, Scan;
    var es, n, i := SetLine(ls, k, line), FirstMatch(ls, j), FirstMatch(ls, k);
    if j == k {
      SetLineSame(ls, k, line);
      assert es[..i] == ls[..i];
    } else {
      SetLineOther(ls, k, line, j);
      if n == |ls| {
        assert es[..|es|] == es && ls[..n] == ls;
        ScanSetLineOther(ls, k, line, j);
      } else if i < n {
        SetLinePrefix(ls, k, line, n);
        ScanSetLineOther(ls[..n], k, line, j);
      } else {
        assert es[..n] == ls[..n];
      }
    }
  }

  lemma SetLinePrefix(ls: seq<string>, k: string, line: string, n: nat)
    requires FirstMatch(ls, k) < n <= |ls|
    ensures SetLine(ls, k, line)[..n] == SetLine(ls[..n], k, line)
  {
    hide Matches, SetLine;
    FirstMatchIs(ls[..n], k, FirstMatch(ls, k));
    SetLineAt(ls, k, line);
    SetLineAt(ls[..n], k, line);
  }

  /** A line that assigns k for the reader, in any spelling. */
  predicate BindsKey(l: string, k: string) { Parse(l).Bind? && Parse(l).key == k }

  function CountBinds(ls: seq<string>, k: string): nat {
    if ls == [] then 0 else (if BindsKey(ls[0], k) then 1 else 0) + CountBinds(ls[1..], k)
  }

  lemma {:induction false} CountConcat(a: seq<string>, b: seq<string>, k: string)
    ensures CountMatches(a + b, k) == CountMatches(a, k) + CountMatches(b, k)
  {
    hide Matches;
    if a == [] {
      assert a + b == b;
    } else {
      assert (a + b)[1..] == a[1..] + b;
      CountConcat(a[1..], b, k);
    }
  }

  lemma {:induction false} CountNone(ls: seq<string>, k: string)
    requires forall i | 0 <= i < |ls| :: !Matches(ls[i], k)
    ensures CountMatches(ls, k) == 0
  {
    hide Matches;
    if ls != [] { CountNone(ls[1..], k); }
  }

  lemma CountSplit(above: seq<string>, line: string, below: seq<string>, k: string)
    ensures CountMatches(above + [line] + below, k) ==
            CountMatches(above, k) + (if Matches(line, k) then 1 else 0) + CountMatches(below, k)
  {
    hide Matches;
    assert above + [line] + below == above + ([line] + below);
    CountConcat(above, [line] + below, k);
    assert ([line] + below)[1..] == below;
  }

  lemma CountSetLine(ls: seq<string>, k: string, line: string, j: string)
    requires IsIdent(k) && IsIdent(j) && Matches(line, k)
    ensures CountMatches(SetLine(ls, k, line), j) ==
            if j == k then Max(1, CountMatches(ls, j)) else CountMatches(ls, j)
  {
    hide Matches, IsIdent, CountMatches;
    var i := FirstMatch(ls, k);
    CountSplit(ls[..i], line, Drop(ls, i + 1), j);
    if Matches(line, j) { MatchesOneKey(line, j, k); }
    if i < |ls| {
      assert ls == ls[..i] + [ls[i]] + Drop(ls, i + 1);
      CountSplit(ls[..i], ls[i], Drop(ls, i + 1), j);
      if Matches(ls[i], j) { MatchesOneKey(ls[i], j, k); }
    } else {
      assert ls[..i] == ls;
      CountNone([], j);
    }
    if j == k { CountNone(ls[..i], k); }
  }

  lemma {:induction false} CountBindsConcat(a: seq<string>, b: seq<string>, k: string)
    ensures CountBinds(a + b, k) == CountBinds(a, k) + CountBinds(b, k)
  {
    hide BindsKey;
    if a == [] {
      assert a + b == b;
    } else {
      assert (a + b)[1..] == a[1..] + b;
      CountBindsConcat(a[1..], b, k);
    }
  }

  lemma CountBindsSplit(above: seq<string>, line: string, below: seq<string>, k: string)
    ensures CountBinds(above + [line] + below, k) ==
            CountBinds(above, k) + (if BindsKey(line, k) then 1 else 0) + CountBinds(below, k)
  {
    hide BindsKey;
    assert above + [line] + below == above + ([line] + below);
    CountBindsConcat(above, [line] + below, k);
    assert ([line] + below)[1..] == below;
  }

  /** An edit adds an assignment only if it finds none that it recognises. */
  lemma CountBindsSetLine(ls: seq<string>, k: string, line: string, j: string)
    requires IsIdent(k) && AssignsKey(line, k)
    ensures CountBinds(SetLine(ls, k, line), j) ==
            CountBinds(ls, j) + (if j == k && FirstMatch(ls, k) == |ls| then 1 else 0)
  {
    hide Matches, IsIdent, CountBinds, Parse, FirstMatch;
    var i := FirstMatch(ls, k);
    CountBindsSplit(ls[..i], line, Drop(ls, i + 1), j);
    if i < |ls| {
      MatchingLineBinds(ls[i], k);
      assert ls == ls[..i] + [ls[i]] + Drop(ls, i + 1);
      CountBindsSplit(ls[..i], ls[i], Drop(ls, i + 1), j);
    } else {
      assert ls[..i] == ls && Drop(ls, i + 1) == [];
      CountBindsNone(j);
    }
  }

  lemma CountBindsNone(k: string)
    ensures CountBinds([], k) == 0
  {
  }

  // ---------- one edit of a text ----------

  lemma LinesOfReplace(c: string, k: string, v: string)
    requires IsIdent(k)
    ensures Lines(Replace(c, k, v)) == StripCrs(SetLine(Lines(c), k, RenderScalar(k, v)))
    ensures AssignsKey(RenderScalar(k, v), k)
  {
    hide Lines, Unlines, Matches, RenderScalar, IsIdent, OneLine, SetLine, Parse;
    ScalarLine(k, v);
    SetLineOneLine(Lines(c), k, RenderScalar(k, v));
    LinesUnlines(SetLine(Lines(c), k, RenderScalar(k, v)));
    assert Parse(RenderScalar(k, v)).Bind?;
  }

  lemma SetLineOneLine(ls: seq<string>, k: string, line: string)
    requires OneLine(line) && forall l | l in ls :: OneLine(l)
    ensures forall l | l in SetLine(ls, k, line) :: OneLine(l)
  {
    hide OneLine, Matches;
    var i := FirstMatch(ls, k);
    forall l | l in SetLine(ls, k, line) ensures OneLine(l) {
      assert l in ls[..i] || l == line || l in Drop(ls, i + 1);
    }
  }

  lemma AboveStripCrs(ls: seq<string>, k: string)
    requires IsIdent(k)
    ensures Above(StripCrs(ls), k) == Above(ls, k)
  {
    hide Matches, IsIdent, Scan;
    var n := FirstMatch(ls, k);
    FirstMatchStripCrs(ls, k);
    assert StripCrs(ls)[..n] == StripCrs(ls[..n]);
    ScanStripCrs(ls[..n], k);
  }

  /** Frame: writing one key leaves what is read for every other key, on every text. */
  lemma ReadFrame(c: string, k: string, v: string, j: string)
    requires IsIdent(k) && j != k
    ensures Read(Replace(c, k, v), j) == Read(c, j)
  {
    hide Lines, Replace, IsIdent, Scan, AssignsKey, SetLine, RenderScalar;
    var es := SetLine(Lines(c), k, RenderScalar(k, v));
    LinesOfReplace(c, k, v);
    ScanStripCrs(es, j);
    ScanSetLineOther(Lines(c), k, RenderScalar(k, v), j);
  }

  /** What is read for the key just written: the written value as quoted and cut, if the reader gets
      there, and otherwise exactly what was read before. */
  lemma ReadWritten(c: string, k: string, v: string)
    requires IsIdent(k)
    ensures Read(Replace(c, k, v), k) ==
            if Visible(Lines(c), k) then Some(Value(" " + Quote(v))) else Read(c, k)
  {
    hide Lines, Replace, IsIdent, Scan, SetLine, RenderScalar, Value, Quote, Visible, Parse;
    var es := SetLine(Lines(c), k, RenderScalar(k, v));
    LinesOfReplace(c, k, v);
    ScanStripCrs(es, k);
    ScanSetLineSame(Lines(c), k, RenderScalar(k, v));
    ScalarLine(k, v);
  }

  /** Round trip: a write is read back as written exactly when it is visible and plain, or when it is
      hidden and the reader already returned the same value. */
  lemma ReadBack(c: string, k: string, v: string)
    requires IsIdent(k)
    ensures Read(Replace(c, k, v), k) == Some(v) <==>
            if Visible(Lines(c), k) then Plain(v) else Read(c, k) == Some(v)
  {
    hide Lines, Replace, IsIdent, Value, Quote, Visible, Read, Plain;
    ReadWritten(c, k, v);
    ReadBackValue(v);
  }

  lemma AboveReplace(c: string, k: string, v: string, j: string)
    requires IsIdent(k) && IsIdent(j)
    ensures Above(Lines(Replace(c, k, v)), j) == Above(Lines(c), j)
  {
    hide Lines, Replace, IsIdent, SetLine, RenderScalar, Above, AssignsKey;
    LinesOfReplace(c, k, v);
    AboveStripCrs(SetLine(Lines(c), k, RenderScalar(k, v)), j);
    AboveSetLine(Lines(c), k, RenderScalar(k, v), j);
  }

  lemma CanonLineStripCrs(ls: seq<string>, j: string)
    requires IsIdent(j)
    ensures CanonLine(StripCrs(ls), j) == CanonLine(ls, j)
  {
    hide Matches, IsIdent, TrimBoth;
    FirstMatchStripCrs(ls, j);
    var i := FirstMatch(ls, j);
    if i < |ls| { TrimStripCr(ls[i]); }
  }

  lemma CanonLineReplace(c: string, k: string, v: string, j: string)
    requires IsIdent(k) && IsIdent(j)
    ensures CanonLine(Lines(Replace(c, k, v)), j) ==
            if j == k then Some(RenderScalar(k, v)) else CanonLine(Lines(c), j)
  {
    hide Lines, Replace, IsIdent, RenderScalar, Matches, TrimBoth, Parse;
    var ls, line := Lines(c), RenderScalar(k, v);
    LinesOfReplace(c, k, v);
    CanonLineStripCrs(SetLine(ls, k, line), j);
    if j == k {
      ScalarLineShape(k, v);
      SetLineSame(ls, k, line);
    } else {
      SetLineOther(ls, k, line, j);
    }
  }

  lemma CountStripCrs(ls: seq<string>, k: string)
    requires IsIdent(k)
    ensures CountMatches(StripCrs(ls), k) == CountMatches(ls, k)
  {
    hide Matches, IsIdent;
    if ls != [] {
      MatchesStripCr(ls[0], k);
      assert StripCrs(ls)[1..] == StripCrs(ls[1..]);
      CountStripCrs(ls[1..], k);
    }
  }

  lemma CountReplace(c: string, k: string, v: string, j: string)
    requires IsIdent(k) && IsIdent(j)
    ensures CountMatches(Lines(Replace(c, k, v)), j) ==
            if j == k then Max(1, CountMatches(Lines(c), j)) else CountMatches(Lines(c), j)
  {
    hide Lines, Replace, IsIdent, RenderScalar, SetLine, Parse, CountMatches;
    LinesOfReplace(c, k, v);
    CountStripCrs(SetLine(Lines(c), k, RenderScalar(k, v)), j);
    CountSetLine(Lines(c), k, RenderScalar(k, v), j);
  }

  lemma CountBindsStripCrs(ls: seq<string>, k: string)
    ensures CountBinds(StripCrs(ls), k) == CountBinds(ls, k)
  {
    hide TrimBoth, ParseTrimmed;
    if ls != [] {
      TrimStripCr(ls[0]);
      assert StripCrs(ls)[1..] == StripCrs(ls[1..]);
      CountBindsStripCrs(ls[1..], k);
    }
  }

  lemma CountBindsReplace(c: string, k: string, v: string, j: string)
    requires IsIdent(k)
    ensures CountBinds(Lines(Replace(c, k, v)), j) ==
            CountBinds(Lines(c), j) + (if j == k && FirstMatch(Lines(c), k) == |Lines(c)| then 1 else 0)
  {
    hide Lines, Replace, IsIdent, RenderScalar, SetLine, Parse, CountBinds, FirstMatch;
    LinesOfReplace(c, k, v);
    CountBindsStripCrs(SetLine(Lines(c), k, RenderScalar(k, v)), j);
    CountBindsSetLine(Lines(c), k, RenderScalar(k, v), j);
  }

  // ---------- last write wins ----------

  /** No line that an edit of k keeps still ends in a carriage return. */
  predicate KeepsNoCr(ls: seq<string>, k: string) {
    forall i | 0 <= i < |ls| && i != FirstMatch(ls, k) :: !EndsInCr(ls[i])
  }

  lemma KeepsNoCrIs(ls: seq<string>, k: string, line: string)
    requires !EndsInCr(line)
    ensures KeepsNoCr(ls, k) <==> forall i | 0 <= i < |SetLine(ls, k, line)| :: !EndsInCr(SetLine(ls, k, line)[i])
  {
    hide Matches, EndsInCr;
    var es, n := SetLine(ls, k, line), FirstMatch(ls, k);
    if forall i | 0 <= i < |es| :: !EndsInCr(es[i]) {
      forall i | 0 <= i < |ls| && i != n ensures !EndsInCr(ls[i]) { assert es[i] == ls[i]; }
    }
  }

  /** Two writes of one key leave the same text as the second alone, exactly when no kept line ends
      in a carriage return (each pass drops one more). With v1 == v2 this is idempotence. */
  lemma LastWriteWins(c: string, k: string, v1: string, v2: string)
    requires IsIdent(k)
    ensures Replace(Replace(c, k, v1), k, v2) == Replace(c, k, v2) <==> KeepsNoCr(Lines(c), k)
  {
    hide Lines, IsIdent, RenderScalar, Matches, SetLine, KeepsNoCr, Unlines, EndsInCr;
    var ls, l1, l2 := Lines(c), RenderScalar(k, v1), RenderScalar(k, v2);
    LinesOfReplace(c, k, v1);
    ScalarLine(k, v1);
    ScalarLine(k, v2);
    SetLineCommutesStripCrs(SetLine(ls, k, l1), k, l2);
    SetLineTwice(ls, k, l1, l2);
    var es := SetLine(ls, k, l2);
    UnlinesStripShorter(es);
    KeepsNoCrIs(ls, k, l2);
    if KeepsNoCr(ls, k) { StripCrsSame(es); }
  }

  lemma SetLineCommutesStripCrs(ls: seq<string>, k: string, line: string)
    requires IsIdent(k) && !EndsInCr(line)
    ensures SetLine(StripCrs(ls), k, line) == StripCrs(SetLine(ls, k, line))
  {
    hide IsIdent, StripCrs, FirstMatch, SetLine;
    FirstMatchStripCrs(ls, k);
    SetLineAt(ls, k, line);
    SetLineAt(StripCrs(ls), k, line);
    assert StripCr(line) == line;
  }

  // ---------- any run of scalar edits ----------

  type Assignment = (string, string)

  predicate IdentKeys(edits: seq<Assignment>) { forall e | e in edits :: IsIdent(e.0) }

  function Run(c: string, edits: seq<Assignment>): string {
    if edits == [] then c
    else var n := |edits| - 1; Replace(Run(c, edits[..n]), edits[n].0, edits[n].1)
  }

  /** The value of the last edit of k. */
  function LastValue(edits: seq<Assignment>, k: string): Option<string> {
    if edits == [] then None
    else var n := |edits| - 1;
         if edits[n].0 == k then Some(edits[n].1) else LastValue(edits[..n], k)
  }

  lemma {:induction false} LastValueConcat(a: seq<Assignment>, b: seq<Assignment>, k: string)
    ensures LastValue(a + b, k) == if LastValue(b, k).Some? then LastValue(b, k) else LastValue(a, k)
  {
    if b == [] {
      assert a + b == a;
    } else {
      assert (a + b)[..|a + b| - 1] == a + b[..|b| - 1];
      LastValueConcat(a, b[..|b| - 1], k);
    }
  }

  lemma {:induction false} AboveRun(c: string, edits: seq<Assignment>, k: string)
    requires IdentKeys(edits) && IsIdent(k)
    ensures Above(Lines(Run(c, edits)), k) == Above(Lines(c), k)
  {
    hide Lines, Replace, IsIdent, Above;
    if edits != [] {
      var n := |edits| - 1;
      AboveRun(c, edits[..n], k);
      assert edits[n] in edits;
      AboveReplace(Run(c, edits[..n]), edits[n].0, edits[n].1, k);
    }
  }

  /** Reading after any run of edits: untouched keys read as before, and a touched key reads the last
      value written for it exactly as one write would, or as before if it was hidden from the start. */
  lemma {:induction false} RunRead(c: string, edits: seq<Assignment>, k: string)
    requires IdentKeys(edits) && IsIdent(k)
    ensures Read(Run(c, edits), k) ==
            if LastValue(edits, k).Some? && Visible(Lines(c), k)
            then Some(Value(" " + Quote(LastValue(edits, k).value))) else Read(c, k)
  {
    hide Lines, Replace, IsIdent, Above, Read, Value, Quote;
    if edits != [] {
      var n := |edits| - 1;
      var d := Run(c, edits[..n]);
      RunRead(c, edits[..n], k);
      AboveRun(c, edits[..n], k);
      assert edits[n] in edits;
      if edits[n].0 == k {
        ReadWritten(d, k, edits[n].1);
      } else {
        ReadFrame(d, edits[n].0, edits[n].1, k);
      }
    }
  }

  /** No accumulation: a run leaves one line for a key it adds and no more lines than before otherwise. */
  lemma {:induction false} RunCount(c: string, edits: seq<Assignment>, k: string)
    requires IdentKeys(edits) && IsIdent(k)
    ensures CountMatches(Lines(Run(c, edits)), k) ==
            if LastValue(edits, k).Some? then Max(1, CountMatches(Lines(c), k)) else CountMatches(Lines(c), k)
  {
    hide Lines, Replace, IsIdent, CountMatches;
    if edits != [] {
      var n := |edits| - 1;
      RunCount(c, edits[..n], k);
      assert edits[n] in edits;
      CountReplace(Run(c, edits[..n]), edits[n].0, edits[n].1, k);
    }
  }

  /** What the reader sees as assignments, in any spelling: a run adds one exactly for a key that it sets
      and that no line assigns in the spelling of the editors. */
  lemma {:induction false} RunBinds(c: string, edits: seq<Assignment>, k: string)
    requires IdentKeys(edits) && IsIdent(k)
    ensures CountBinds(Lines(Run(c, edits)), k) ==
            CountBinds(Lines(c), k) +
            (if LastValue(edits, k).Some? && CountMatches(Lines(c), k) == 0 then 1 else 0)
  {
    hide Lines, Replace, IsIdent, CountBinds, CountMatches;
    if edits != [] {
      var n := |edits| - 1;
      var d := Run(c, edits[..n]);
      RunBinds(c, edits[..n], k);
      RunCount(c, edits[..n], k);
      assert edits[n] in edits;
      CountBindsReplace(d, edits[n].0, edits[n].1, k);
      NoneToCount(Lines(d), k);
    }
  }

  lemma {:induction false} NoneToCount(ls: seq<string>, k: string)
    ensures CountMatches(ls, k) == 0 <==> FirstMatch(ls, k) == |ls|
  {
    hide Matches;
    if ls != [] {
      NoneToCount(ls[1..], k);
      var n := if Matches(ls[0], k) then 0 else 1 + FirstMatch(ls[1..], k);
      assert forall i | 0 < i < |ls| :: ls[i] == ls[1..][i - 1];
      FirstMatchIs(ls, k, n);
    }
  }

  /** A key is assigned at most once after a run exactly if it was before, and, if the run adds a line for
      it, was not assigned at all. */
  lemma AssignedOnce(c: string, edits: seq<Assignment>, k: string)
    requires IdentKeys(edits) && IsIdent(k)
    ensures CountBinds(Lines(Run(c, edits)), k) <= 1 <==>
            CountBinds(Lines(c), k) <=
              if LastValue(edits, k).Some? && CountMatches(Lines(c), k) == 0 then 0 else 1
  {
    hide Lines, Run, IsIdent, CountBinds, CountMatches;
    RunBinds(c, edits, k);
  }

  /** The first line of a key after a run is the rendering of the last value written for it. */
  lemma {:induction false} RunCanonLine(c: string, edits: seq<Assignment>, k: string)
    requires IdentKeys(edits) && IsIdent(k)
    ensures CanonLine(Lines(Run(c, edits)), k) ==
            match LastValue(edits, k)
            case Some(v) => Some(RenderScalar(k, v))
            case None => CanonLine(Lines(c), k)
  {
    hide Lines, Replace, IsIdent, CanonLine, RenderScalar;
    if edits != [] {
      var n := |edits| - 1;
      RunCanonLine(c, edits[..n], k);
      assert edits[n] in edits;
      CanonLineReplace(Run(c, edits[..n]), edits[n].0, edits[n].1, k);
    }
  }

  // ---------- the text as a map ----------

  /** Everything the reader can return from some lines. */
  function Bindings(ls: seq<string>): map<string, string> {
    if ls == [] then map[]
    else match Parse(ls[0])
         case Skipped => Bindings(ls[1..])
         case Opaque => map[]
         case Bind(k, v) => Bindings(ls[1..])[k := v]
  }

  lemma {:induction false} BindingsAreReads(ls: seq<string>, k: string)
    ensures k in Bindings(ls) <==> Scan(ls, k).Found?
    ensures k in Bindings(ls) ==> Scan(ls, k) == Found(Bindings(ls)[k])
  {
    hide Parse;
    if ls != [] { BindingsAreReads(ls[1..], k); }
  }

  function Update(m: map<string, string>, edits: seq<Assignment>): map<string, string> {
    if edits == [] then m
    else var n := |edits| - 1; Update(m, edits[..n])[edits[n].0 := edits[n].1]
  }

  lemma {:induction false} UpdateAt(m: map<string, string>, edits: seq<Assignment>, k: string)
    ensures k in Update(m, edits) <==> k in m || LastValue(edits, k).Some?
    ensures k in Update(m, edits) ==>
              Update(m, edits)[k] == if LastValue(edits, k).Some? then LastValue(edits, k).value else m[k]
  {
    if edits != [] { UpdateAt(m, edits[..|edits| - 1], k); }
  }

  /** Refinement: if every edited key is visible in the starting text and every value is plain, any run
      of text edits is the same run of map updates, for all keys the reader can be asked for. */
  lemma RunRefinesUpdate(c: string, edits: seq<Assignment>)
    requires IdentKeys(edits)
    requires forall e | e in edits :: Visible(Lines(c), e.0) && Plain(e.1)
    ensures Bindings(Lines(Run(c, edits))) == Update(Bindings(Lines(c)), edits)
  {
    hide Lines, Replace, IsIdent, Visible, Value, Quote, Bindings, Scan, Plain, Parse;
    var b, u := Bindings(Lines(Run(c, edits))), Update(Bindings(Lines(c)), edits);
    forall k: string ensures (k in b <==> k in u) && (k in b ==> b[k] == u[k]) {
      RunReadAny(c, edits, k);
      BindingsAreReads(Lines(Run(c, edits)), k);
      BindingsAreReads(Lines(c), k);
      UpdateAt(Bindings(Lines(c)), edits, k);
    }
    assert b.Keys == u.Keys;
  }

  lemma {:induction false} RunReadAny(c: string, edits: seq<Assignment>, k: string)
    requires IdentKeys(edits)
    requires forall e | e in edits :: Visible(Lines(c), e.0) && Plain(e.1)
    ensures Read(Run(c, edits), k) ==
            if LastValue(edits, k).Some? then LastValue(edits, k) else Read(c, k)
  {
    hide Lines, Replace, IsIdent, Above, Read, Value, Quote, Plain;
    if edits != [] {
      var n := |edits| - 1;
      var d := Run(c, edits[..n]);
      RunReadAny(c, edits[..n], k);
      assert edits[n] in edits;
      if edits[n].0 == k {
        AboveRun(c, edits[..n], k);
        ReadWritten(d, k, edits[n].1);
        ReadBackValue(edits[n].1);
      } else {
        ReadFrame(d, edits[n].0, edits[n].1, k);
      }
    }
  }
}
