/** Maps read back: what the map editors and the map printer write is the map they were given. The reader
    here knows the syntax of Terraform maps and of JSON strings, and nothing of the printer. */
module TfvarsMapReader {
  import opened Wrappers
  import opened Text
  import opened Json
  import opened Tfvars
  import opened TfvarsScalar
  import opened TfvarsMap
  import opened TfvarsMapLaws
  import opened TfvarsReach

  // ---------- a reader of maps ----------

  /** `"key" = "value"` */
  function ReadEntry(line: string): Option<(string, string)> {
    var t := Trim(line);
    if t == [] || t[0] != '"' then None
    else
      match ReadString(t[1..])
      case None => None
      case Some((key, rest)) =>
        if !StartsWith(rest, " = \"") then None
        else
          match ReadString(rest[4..])
          case None => None
          case Some((value, after)) => if after == [] then Some((key, value)) else None
  }

  /** The entries up to the closing brace. */
  function ReadEntries(ls: seq<string>): Option<Entries> {
    if ls == [] then None
    else if Trim(ls[0]) == "}" then Some([])
    else
      match (ReadEntry(ls[0]), ReadEntries(ls[1..]))
      case (Some(e), Some(m)) => Some([e] + m)
      case _ => None
  }

  /** The map of k whose first line is at some place. */
  function ReadMapAt(ls: seq<string>, at: nat, k: string): Option<Entries> {
    if at >= |ls| then None
    else if Trim(ls[at]) == k + " = {}" then Some([])
    else if Trim(ls[at]) == k + " = {" then ReadEntries(ls[at + 1..])
    else None
  }

  /** The map that a text assigns to k; the literal editor looks for k's line with its own test. */
  function ReadMap(c: string, k: string, literal: bool): Option<Entries> {
    ReadMapAt(Lines(c), Place(Lines(c), k, literal), k)
  }

  // ---------- one entry, one map ----------

  lemma EntryTrimmed(e: (string, string))
    ensures Trim(EntryLine(e)) == Quote(e.0) + " = " + Quote(e.1)
  {
    hide TrimBoth, Quote;
    var l, t := EntryLine(e), Quote(e.0) + " = " + Quote(e.1);
    assert l == "  " + t;
    assert t[0] == Quote(e.0)[0] && t[|t| - 1] == Quote(e.1)[|Quote(e.1)| - 1];
    TrimBothAt(l, IsSpace, 2, |l|);
    assert l[2..|l|] == t;
  }

  /** An entry is read back as key and value, in this order, whatever characters they hold. */
  lemma EntryRoundTrip(e: (string, string))
    ensures ReadEntry(EntryLine(e)) == Some(e)
  {
    hide TrimBoth, Escape, ReadString, EntryLine;
    EntryTrimmed(e);
    var t, last := Trim(EntryLine(e)), Escape(e.1) + "\"" + "";
    var rest := " = \"" + last;
    assert t[1..] == Escape(e.0) + "\"" + rest;
    ReadQuoted(e.0, rest);
    assert rest[4..] == last;
    ReadQuoted(e.1, "");
  }

  lemma EntryIsNoBrace(e: (string, string))
    ensures Trim(EntryLine(e)) != "}"
  {
    hide EntryLine, Quote, TrimBoth;
    EntryTrimmed(e);
    assert (Quote(e.0) + " = " + Quote(e.1))[0] == '"';
  }

  lemma EntryLinesTail(m: Entries)
    requires m != []
    ensures EntryLines(m) == [EntryLine(m[0])] + EntryLines(m[1..])
  {
    hide EntryLine;
  }

  lemma {:induction false} EntriesRoundTrip(m: Entries, below: seq<string>)
    ensures ReadEntries(EntryLines(m) + ["}"] + below) == Some(m)
  {
    hide EntryLine, EntryLines, ReadEntry, TrimBoth;
    var ls := EntryLines(m) + ["}"] + below;
    if m == [] {
      CloseLine();
      assert EntryLines(m) == [];
      assert ls[0] == "}";
    } else {
      EntryLinesTail(m);
      var tail := EntryLines(m[1..]) + ["}"] + below;
      assert ls == [EntryLine(m[0])] + tail;
      assert ls[1..] == tail;
      EntriesRoundTrip(m[1..], below);
      EntryRoundTrip(m[0]);
      EntryIsNoBrace(m[0]);
      assert [m[0]] + m[1..] == m;
    }
  }

  lemma HeadersTrimmed(k: string)
    requires IsIdent(k)
    ensures Trim(Header(k)) == k + " = {" && Trim(EmptyMap(k)) == k + " = {}"
  {
    hide TrimBoth;
    assert k[0] in k;
    TrimBothAt(Header(k), IsSpace, 0, |Header(k)|);
    assert Header(k)[0..|Header(k)|] == Header(k);
    TrimBothAt(EmptyMap(k), IsSpace, 0, |EmptyMap(k)|);
    assert EmptyMap(k)[0..|EmptyMap(k)|] == EmptyMap(k);
  }

  /** Some lines stand at the place of b. */
  predicate Holds(ls: seq<string>, b: string, block: seq<string>, literal: bool) {
    var at := Place(ls, b, literal);
    block != [] && at + |block| <= |ls| && ls[at..at + |block|] == block
  }

  /** The lines of a map are read as the map, wherever they stand. */
  lemma HeldMapReads(ls: seq<string>, b: string, m: Entries, literal: bool)
    requires IsIdent(b)
    ensures Holds(ls, b, LongBlock(b, m), literal) ==> ReadMapAt(ls, Place(ls, b, literal), b) == Some(m)
    ensures Holds(ls, b, Block(b, m), literal) ==> ReadMapAt(ls, Place(ls, b, literal), b) == Some(m)
  {
    hide Header, EmptyMap, EntryLines, ReadEntries, Place, TrimBoth;
    var at := Place(ls, b, literal);
    HeadersTrimmed(b);
    HeadersDiffer(b);
    if Holds(ls, b, LongBlock(b, m), literal) {
      var block := LongBlock(b, m);
      assert ls[at] == ls[at..at + |block|][0] == Header(b);
      var below := ls[at + |block|..];
      assert ls[at + 1..] == ls[at..at + |block|][1..] + below;
      assert block[1..] == EntryLines(m) + ["}"];
      EntriesRoundTrip(m, below);
    } else if Holds(ls, b, Block(b, m), literal) {
      assert ls[at] == ls[at..at + 1][0];
    }
  }

  lemma HeadersDiffer(k: string)
    ensures k + " = {" != k + " = {}"
  {
    assert |k + " = {"| + 1 == |k + " = {}"|;
  }

  // ---------- the two map editors ----------

  lemma MapHeld(c: string, k: string, m: Entries)
    requires IsIdent(k)
    ensures Holds(Lines(ReplaceMap(c, k, m)), k, Block(k, m), false)
  {
    hide Lines, ReplaceMap, IsIdent, FirstMatch, Block, KeptBelow, AllLines, Parse, Matches, StripCrs;
    var ls, block := Lines(c), Block(k, m);
    var q := FirstMatch(ls, k);
    LinesOfSetBlock(c, k, m);
    BlockLines(k, m);
    StripThree(ls[..q], block, KeptBelow(ls, q));
    var es := StripCrs(ls[..q]) + block + StripCrs(KeptBelow(ls, q));
    assert Lines(ReplaceMap(c, k, m)) == es;
    NoneAbove(ls, q, k);
    NoneStripCrs(ls[..q], k);
    assert es[q] == block[0];
    FirstMatchIs(es, k, q);
  }

  lemma NoneStripCrs(ls: seq<string>, k: string)
    requires IsIdent(k) && NoneAssigns(ls, k)
    ensures forall i | 0 <= i < |ls| :: !Matches(StripCrs(ls)[i], k)
  {
    hide Matches, IsIdent;
    forall i | 0 <= i < |ls| ensures !Matches(StripCrs(ls)[i], k) { MatchesStripCr(ls[i], k); }
  }

  /** Round trip: the map that the map editor writes is the map that can be read, for every text and map. */
  lemma MapRoundTrip(c: string, k: string, m: Entries)
    requires IsIdent(k)
    ensures ReadMap(ReplaceMap(c, k, m), k, false) == Some(m)
  {
    hide Lines, ReplaceMap, IsIdent, ReadMapAt, Block, Place, LongBlock;
    MapHeld(c, k, m);
    HeldMapReads(Lines(ReplaceMap(c, k, m)), k, m, false);
  }

  lemma HeldBelow(above: seq<string>, block: seq<string>, below: seq<string>, k: string)
    requires block != [] && LitMatches(block[0], k) && forall n | 0 <= n < |above| :: !LitMatches(above[n], k)
    ensures Holds(above + block + below, k, block, true)
  {
    hide LitMatches, LitFirst;
    var x, at := above + block + below, |above|;
    assert x[at] == block[0];
    LitFirstIs(x, k, at);
    assert x[at..at + |block|] == block;
  }

  lemma LiteralLinesHeld(c: string, k: string, m: Entries)
    requires IsIdent(k)
    ensures var x := LiteralLines(c, k, m);
            Holds(x, k, LongBlock(k, m), true) &&
            (x != [] && x[|x| - 1] == "" ==> Holds(x[..|x| - 1], k, LongBlock(k, m), true))
  {
    hide Lines, IsIdent, LitFirst, LongBlock, LitKeptBelow, LitMatches, Holds, Matches, Parse;
    var ls, block, x := Lines(c), LongBlock(k, m), LiteralLines(c, k, m);
    var i := LitFirst(ls, k);
    var filler := if i == |ls| && Unterminated(c) then [""] else [];
    var below := if i < |ls| then LitKeptBelow(ls, i) else [];
    var above := ls[..i] + filler;
    assert x == above + block + below;
    LongBlockEnd(k, m);
    LongBlockHead(k, m);
    BlankIsNoLit(k);
    assert forall n | 0 <= n < i :: !LitMatches(ls[n], k);
    HeldBelow(above, block, below, k);
    if x[|x| - 1] == "" {
      assert below != [];
      var fewer := below[..|below| - 1];
      assert x[..|x| - 1] == above + block + fewer;
      HeldBelow(above, block, fewer, k);
    }
  }

  lemma LongBlockHead(k: string, m: Entries)
    requires IsIdent(k)
    ensures LongBlock(k, m)[0] == Header(k) && LitMatches(Header(k), k)
  {
    HeaderLine(k);
  }

  lemma BlankIsNoLit(k: string)
    ensures !LitMatches("", k)
  {
  }

  lemma LiteralHeld(c: string, k: string, m: Entries)
    requires IsIdent(k)
    ensures Holds(Lines(ReplaceLiteral(c, k, RenderMap(m))), k, LongBlock(k, m), true)
  {
    hide Lines, ReplaceLiteral, IsIdent, LiteralLines, RenderMap, LongBlock, Holds, StripCrs, AllLines, Parse, Matches;
    var x, ls := LiteralLines(c, k, m), Lines(ReplaceLiteral(c, k, RenderMap(m)));
    LinesOfLiteral(c, k, m);
    LiteralLinesOneLine(c, k, m);
    LiteralLinesHeld(c, k, m);
    LongBlockLines(k, m);
    if x[|x| - 1] == "" {
      var y := x[..|x| - 1];
      assert x == y + [""];
      StripCrsConcat(y, [""]);
      StripBlank();
      assert StripCrs(y) == ls by { LastDropped(StripCrs(y), ls); }
      HoldsStripCrs(y, k, LongBlock(k, m), true);
    } else {
      HoldsStripCrs(x, k, LongBlock(k, m), true);
    }
  }

  lemma LastDropped(a: seq<string>, b: seq<string>)
    requires a + [""] == b + [""]
    ensures a == b
  {
    assert a == (a + [""])[..|a + [""]| - 1] && b == (b + [""])[..|b + [""]| - 1];
  }

  /** The same round trip for the literal editor and the map printer. */
  lemma LiteralRoundTrip(c: string, k: string, m: Entries)
    requires IsIdent(k)
    ensures ReadMap(ReplaceLiteral(c, k, RenderMap(m)), k, true) == Some(m)
  {
    hide Lines, ReplaceLiteral, IsIdent, ReadMapAt, RenderMap, Place, LongBlock, Block;
    LiteralHeld(c, k, m);
    HeldMapReads(Lines(ReplaceLiteral(c, k, RenderMap(m))), k, m, true);
  }

  // ---------- a map stays through later edits ----------

  lemma HoldsStripCrs(ls: seq<string>, b: string, block: seq<string>, literal: bool)
    requires IsIdent(b) && AllLines(block) && Holds(ls, b, block, literal)
    ensures Holds(StripCrs(ls), b, block, literal)
  {
    hide IsIdent, Place, StripCrs, IsLine;
    var at, es := Place(ls, b, literal), StripCrs(ls);
    PlaceStripCrs(ls, b, literal);
    forall n | at <= n < at + |block| ensures es[n] == block[n - at] {
      assert ls[n] == ls[at..at + |block|][n - at] == block[n - at];
      assert IsLine(block[n - at]);
      LineKeeps(ls[n]);
    }
    assert es[at..at + |block|] == block;
  }

  lemma PartAt(ls: seq<string>, at: nat, block: seq<string>, n: nat)
    requires at + |block| <= |ls| && ls[at..at + |block|] == block
    ensures at <= n < at + |block| ==> ls[n] == block[n - at]
  {
    assert at <= n < at + |block| ==> ls[n] == ls[at..at + |block|][n - at];
  }

  lemma LineKeeps(l: string)
    ensures IsLine(l) ==> StripCr(l) == l
  {
  }

  lemma HoldsSetLine(ls: seq<string>, k: string, line: string, b: string, block: seq<string>, literal: bool)
    requires IsIdent(k) && IsIdent(b) && k != b && AssignsKey(line, k) && NoneAssigns(block, k)
    requires Holds(ls, b, block, literal)
    ensures Holds(SetLine(ls, k, line), b, block, literal)
  {
    hide IsIdent, Place, FirstMatch, Matches, Parse, SetLine;
    var at, n, es := Place(ls, b, literal), FirstMatch(ls, k), SetLine(ls, k, line);
    PlaceSetLine(ls, k, line, b, literal);
    SetLineAt(ls, k, line);
    PartAt(ls, at, block, n);
    assert es[at..at + |block|] == ls[at..at + |block|];
  }

  /** Scalar edits of other keys leave a map where it is found, line for line. */
  lemma {:induction false} HoldsRun(c: string, edits: seq<Assignment>, b: string, block: seq<string>, literal: bool)
    requires IdentKeys(edits) && LastValue(edits, b) == None && IsIdent(b) && AllLines(block)
    requires forall k | IsIdent(k) && k != b :: NoneAssigns(block, k)
    requires Holds(Lines(c), b, block, literal)
    ensures Holds(Lines(Run(c, edits)), b, block, literal)
  {
    hide Lines, Replace, IsIdent, Holds, SetLine, RenderScalar, AssignsKey, StripCrs, AllLines, NoneAssigns;
    if edits != [] {
      var n := |edits| - 1;
      var d, k, v := Run(c, edits[..n]), edits[n].0, edits[n].1;
      assert edits[n] in edits;
      HoldsRun(c, edits[..n], b, block, literal);
      LinesOfReplace(d, k, v);
      HoldsSetLine(Lines(d), k, RenderScalar(k, v), b, block, literal);
      HoldsStripCrs(SetLine(Lines(d), k, RenderScalar(k, v)), b, block, literal);
    }
  }

  lemma MapAssignsOnly(b: string, m: Entries)
    requires IsIdent(b)
    ensures AllLines(Block(b, m)) && AllLines(LongBlock(b, m))
    ensures forall k | IsIdent(k) && k != b :: NoneAssigns(Block(b, m), k) && NoneAssigns(LongBlock(b, m), k)
  {
    hide IsIdent, Block, LongBlock, NoneAssigns, AllLines, Parse, Matches;
    BlockLines(b, m);
    LongBlockLines(b, m);
    forall k | IsIdent(k) && k != b ensures NoneAssigns(Block(b, m), k) && NoneAssigns(LongBlock(b, m), k) {
      BlockAssignsOnly(b, m, k);
    }
  }

  /** The literal edit of another map leaves a map line for line, although it may move it. */
  lemma HoldsLiteral(c: string, s: string, m: Entries, b: string, block: seq<string>)
    requires IsIdent(s) && IsIdent(b) && s != b && AllLines(block) && LitTidy(Lines(c), s)
    requires forall k | IsIdent(k) && k != b :: NoneAssigns(block, k)
    requires block != [] && block[|block| - 1] != "" && Holds(Lines(c), b, block, false)
    ensures Holds(Lines(ReplaceLiteral(c, s, RenderMap(m))), b, block, false)
  {
    hide Lines, ReplaceLiteral, IsIdent, LiteralLines, RenderMap, Holds, StripCrs, AllLines, NoneAssigns, LitTidy;
    var x, ls := LiteralLines(c, s, m), Lines(ReplaceLiteral(c, s, RenderMap(m)));
    LinesOfLiteral(c, s, m);
    LiteralLinesOneLine(c, s, m);
    HoldsLiteralLines(c, s, m, b, block);
    HoldsStripCrs(x, b, block, false);
    if x[|x| - 1] == "" { HoldsDropBlank(ls, b, block); }
  }

  lemma HoldsDropBlank(ls: seq<string>, b: string, block: seq<string>)
    requires block != [] && block[|block| - 1] != "" && IsIdent(b) && Holds(ls + [""], b, block, false)
    ensures Holds(ls, b, block, false)
  {
    hide FirstMatch, IsIdent, Matches;
    var x := ls + [""];
    var at := FirstMatch(x, b);
    PartAt(x, at, block, |ls|);
    PlaceSameTop(x, ls, |ls|, b, false);
    assert ls[at..at + |block|] == x[at..at + |block|];
  }

  lemma HoldsLiteralLines(c: string, s: string, m: Entries, b: string, block: seq<string>)
    requires IsIdent(s) && IsIdent(b) && s != b && LitTidy(Lines(c), s) && NoneAssigns(block, s)
    requires Holds(Lines(c), b, block, false)
    ensures Holds(LiteralLines(c, s, m), b, block, false)
  {
    hide Lines, IsIdent, FirstMatch, LitFirst, LongBlock, LitKeptBelow, LitTidy, NoneAssigns, Matches, LitMatches;
    var ls, long, x := Lines(c), LongBlock(s, m), LiteralLines(c, s, m);
    var i, q := LitFirst(ls, s), FirstMatch(ls, b);
    if i < |ls| { LitMatchIsMatch(ls[i], s); }
    NotInside(ls, q, block, s, i);
    if q < i {
      assert x[..i] == ls[..i];
      PlaceSameTop(ls, x, i, b, false);
      assert x[q..q + |block|] == x[..i][q..q + |block|] == ls[q..q + |block|];
    } else {
      var hi := LitDroppedAssignsOnly(ls, s, b);
      assert x == ls[..i] + long + ls[hi..];
      BlockAssignsOnly(s, m, b);
      HoldsShifted(ls, i, hi, long, b, block);
    }
  }

  lemma NotInside(ls: seq<string>, q: nat, block: seq<string>, s: string, i: nat)
    requires q + |block| <= |ls| && ls[q..q + |block|] == block && NoneAssigns(block, s)
    requires i <= |ls| && (i < |ls| ==> Matches(ls[i], s))
    ensures i < q || q + |block| <= i
  {
    hide Matches;
    PartAt(ls, q, block, i);
  }

  lemma HoldsShifted(ls: seq<string>, i: nat, hi: nat, r: seq<string>, b: string, block: seq<string>)
    requires i <= hi <= |ls| && i <= FirstMatch(ls, b) && NoneAssigns(ls[i..hi], b) && NoneAssigns(r, b)
    requires Holds(ls, b, block, false)
    ensures Holds(ls[..i] + r + ls[hi..], b, block, false)
  {
    hide FirstMatch, Matches;
    var q, x := FirstMatch(ls, b), ls[..i] + r + ls[hi..];
    PartAt(ls, i, ls[i..hi], q);
    NoneAbove(ls, i, b);
    FirstMatchNone(ls[..i], r, b);
    FirstMatchConcat(ls[..i] + r, ls[hi..], b);
    var d := q - hi;
    assert forall n | 0 <= n < |ls| - hi :: ls[hi..][n] == ls[hi + n];
    FirstMatchIs(ls[hi..], b, d);
    var at := i + |r| + d;
    assert x[at..at + |block|] == ls[q..q + |block|];
  }
}
