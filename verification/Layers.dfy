/** Layered override: after the whole run of edits each scalar key carries the value of the last layer
    that sets it, although two map editors run in between. */
module Layers {
  import opened Wrappers
  import opened Text
  import opened Json
  import opened Normalizer
  import opened Identity
  import opened Tfvars
  import opened TfvarsScalar
  import opened TfvarsMap
  import opened TfvarsMapLaws
  import opened TfvarsReach
  import opened TfvarsEditor
  import opened Materialize
  import opened Reading

  // ---------- a map to be replaced later stays tidy ----------

  lemma LitTidySetLine(ls: seq<string>, k: string, line: string, b: string)
    requires IsIdent(k) && IsIdent(b) && b != k && Matches(line, k) && LitTidy(ls, b)
    ensures LitTidy(SetLine(ls, k, line), b)
  {
    hide Matches, IsIdent, FirstMatch, LitMatches, LitFirst, LitOpens, LitCloses, IsEntry, SetLine;
    var es, n, i := SetLine(ls, k, line), FirstMatch(ls, k), LitFirst(ls, b);
    SetLineAt(ls, k, line);
    OtherKeyNoLit(line, k, b);
    if n < |ls| { OtherKeyNoLit(ls[n], k, b); }
    LitFirstIs(es, b, if i < |ls| then i else |es|);
    if i < |ls| && LitOpens(ls[i]) {
      var hi :| i < hi < |ls| && LitBlockAt(ls, i, hi);
      if i < n < hi { QuotedLineIsNoAssignment(ls[n], k); }
      if n == hi { LitCloseIsNoAssignment(ls[n], k); }
      assert LitBlockAt(es, i, hi);
    }
  }

  /** Replacing a stretch of lines that has nothing to do with b keeps b's map tidy, wherever it is. */
  lemma LitTidySplice(ls: seq<string>, i: nat, hi: nat, r: seq<string>, b: string)
    requires i <= hi <= |ls| && NoneAssigns(ls[i..hi], b) && NoneAssigns(r, b) && LitTidy(ls, b)
    requires i < |ls| ==> !IsEntry(ls[i]) && !LitCloses(ls[i])
    ensures LitTidy(ls[..i] + r + ls[hi..], b)
  {
    hide Matches, LitMatches, LitFirst, LitOpens, LitCloses, IsEntry;
    var es, q := ls[..i] + r + ls[hi..], LitFirst(ls, b);
    NoLitIn(ls[i..hi], b);
    NoLitIn(r, b);
    assert forall n | i <= n < hi :: ls[n] == ls[i..hi][n - i];
    if q < i {
      LitFirstIs(es, b, q);
      if LitOpens(ls[q]) {
        var h :| q < h < |ls| && LitBlockAt(ls, q, h);
        assert h < i;
        assert LitBlockAt(es, q, h);
      }
    } else {
      assert hi <= q;
      LitTidyShift(ls, i, hi, r, b);
    }
  }

  lemma NoLitIn(ls: seq<string>, b: string)
    requires NoneAssigns(ls, b)
    ensures forall n | 0 <= n < |ls| :: !LitMatches(ls[n], b)
  {
    hide Matches, LitMatches;
    forall n | 0 <= n < |ls| ensures !LitMatches(ls[n], b) {
      if LitMatches(ls[n], b) { LitMatchIsMatch(ls[n], b); }
    }
  }

  lemma LitTidyShift(ls: seq<string>, i: nat, hi: nat, r: seq<string>, b: string)
    requires i <= hi <= LitFirst(ls, b) && LitTidy(ls, b) && NoneAssigns(r, b)
    ensures LitTidy(ls[..i] + r + ls[hi..], b)
  {
    hide Matches, LitMatches, LitFirst, LitOpens, LitCloses, IsEntry;
    var es, q, d := ls[..i] + r + ls[hi..], LitFirst(ls, b), i + |r| - hi;
    NoLitIn(r, b);
    assert forall n | hi <= n < |ls| :: es[n + d] == ls[n];
    forall n | 0 <= n < q + d ensures !LitMatches(es[n], b) {
      if i <= n < i + |r| { assert es[n] == r[n - i]; }
      else if i + |r| <= n { assert es[n] == ls[n - d]; }
    }
    LitFirstIs(es, b, q + d);
    if q < |ls| && LitOpens(ls[q]) {
      var h :| q < h < |ls| && LitBlockAt(ls, q, h);
      forall n | q + d < n < h + d ensures IsEntry(es[n]) { assert es[n] == ls[n - d]; }
      assert LitBlockAt(es, q + d, h + d);
    }
  }

  lemma TrimEndStripCr(l: string)
    ensures TrimEnd(StripCr(l)) == TrimEnd(l)
  {
    hide TrimRight;
    if EndsInCr(l) {
      var t := TrimEnd(l);
      assert IsSpace(l[|l| - 1]) && |t| < |l|;
      TrimRightIs(StripCr(l), IsSpace, |t|);
      assert StripCr(l)[..|t|] == l[..|t|];
    }
  }

  lemma LitTidyStripCrs(ls: seq<string>, b: string)
    requires IsIdent(b) && LitTidy(ls, b)
    ensures LitTidy(StripCrs(ls), b)
  {
    hide IsIdent, LitFirst, TrimRight, TrimLeft, StripCrs, OneLine;
    var i, es := LitFirst(ls, b), StripCrs(ls);
    PlaceStripCrs(ls, b, true);
    if i < |ls| {
      TrimEndStripCr(ls[i]);
      if LitOpens(ls[i]) {
        var h :| i < h < |ls| && LitBlockAt(ls, i, h);
        TrimStripCr(ls[h]);
        forall n | i < n < h ensures IsEntry(es[n]) { assert es[n] == ls[n]; }
        assert LitBlockAt(es, i, h);
      }
    }
  }

  /** A scalar line in place of the map is nothing to continue. */
  lemma LitTidySetSame(ls: seq<string>, b: string, v: string)
    requires IsIdent(b)
    ensures LitTidy(SetLine(ls, b, RenderScalar(b, v)), b)
  {
    hide Matches, IsIdent, FirstMatch, LitFirst, Quote, TrimRight, TrimLeft, Parse;
    var line, n := RenderScalar(b, v), FirstMatch(ls, b);
    var es := SetLine(ls, b, line);
    SetLineAt(ls, b, line);
    QuoteOneLine(v);
    KeyLineShape(b, Quote(v));
    assert line[|line| - 1] == '"';
    TrimRightIs(line, IsSpace, |line|);
    assert line[..|line|] == line;
    forall i | 0 <= i < n ensures !LitMatches(es[i], b) {
      if LitMatches(es[i], b) { LitMatchIsMatch(es[i], b); }
    }
    LitFirstIs(es, b, n);
  }

  lemma QuoteOneLine(v: string)
    ensures OneLine(Quote(v))
  {
    hide Quote;
  }

  lemma {:induction false} LitTidyRun(c: string, edits: seq<Assignment>, b: string)
    requires IdentKeys(edits) && IsIdent(b) && LitTidy(Lines(c), b)
    ensures LitTidy(Lines(Run(c, edits)), b)
  {
    hide Lines, Replace, IsIdent, LitTidy, SetLine, RenderScalar, Matches, StripCrs, Parse;
    if edits != [] {
      var n := |edits| - 1;
      var d, k, v := Run(c, edits[..n]), edits[n].0, edits[n].1;
      assert edits[n] in edits;
      LitTidyRun(c, edits[..n], b);
      LinesOfReplace(d, k, v);
      if k == b { LitTidySetSame(Lines(d), b, v); } else { LitTidySetLine(Lines(d), k, RenderScalar(k, v), b); }
      LitTidyStripCrs(SetLine(Lines(d), k, RenderScalar(k, v)), b);
    }
  }

  /** After a tidy environment map is replaced the secrets map is still tidy. */
  lemma LitTidyReplaceMap(c: string, m: Entries)
    requires Tidy(Lines(c), ENV_MAP) && LitTidy(Lines(c), SECRETS_MAP)
    ensures LitTidy(Lines(ReplaceMap(c, ENV_MAP, m)), SECRETS_MAP)
  {
    hide Lines, ReplaceMap, IsIdent, Tidy, LitTidy, Matches, FirstMatch, Block, KeptBelow, NoneAssigns, IsEntry;
    hide LitCloses, StripCrs;
    MapKeys();
    var ls := Lines(c);
    var i := FirstMatch(ls, ENV_MAP);
    LinesOfSetBlock(c, ENV_MAP, m);
    var hi := DroppedAssignsOnly(ls, ENV_MAP, SECRETS_MAP);
    BlockAssignsOnly(ENV_MAP, m, SECRETS_MAP);
    if i < |ls| {
      if IsEntry(ls[i]) { QuotedLineIsNoAssignment(ls[i], ENV_MAP); }
      if LitCloses(ls[i]) { LitCloseIsNoAssignment(ls[i], ENV_MAP); }
    }
    LitTidySplice(ls, i, hi, Block(ENV_MAP, m), SECRETS_MAP);
    LitTidyStripCrs(SetBlock(ls, ENV_MAP, Block(ENV_MAP, m)), SECRETS_MAP);
  }

  lemma SettledRun(c: string, edits: seq<Assignment>, b: string)
    requires IdentKeys(edits) && LastValue(edits, b) == None && IsIdent(b) && Settled(Lines(c), b)
    ensures Settled(Lines(Run(c, edits)), b)
  {
    hide Lines, Run, IsIdent, FirstMatch, Tidy, ReplaceMap;
    if FirstMatch(Lines(c), b) < |Lines(c)| {
      RunCommutes(c, edits, b, []);
    } else {
      StaysAbsent(c, edits, b);
      AbsentIsTidy(Lines(Run(c, edits)), b);
    }
  }

  // ---------- the layers ----------

  predicate WritesEnvMap(c: Config, w: World) { c.provider.IsCloud() && w.secretEnv.Some? }

  predicate WritesSecretsMap(w: World) { w.operatorSecrets.Some? && w.operatorSecrets.value != [] }

  /** The maps of the example that the run writes, if they go over several lines, are closed and hold
      nothing but entries, comments and blank lines. */
  predicate Neat(c: Config, w: World) {
    var ls := Lines(Example(w));
    (WritesEnvMap(c, w) ==> Settled(ls, ENV_MAP)) && (WritesSecretsMap(w) ==> LitTidy(ls, SECRETS_MAP))
  }

  /** The line of every scalar key is the rendering of the last layer that sets it, and the example's
      own line if none does. */
  lemma LayeredOverride(c: Config, w: World, prefix: string, k: string)
    requires IdentKeys(w.overrides) && Neat(c, w) && IsScalarKey(k)
    ensures CanonLine(Lines(Layered(c, w, prefix)), k) ==
            LastLine(Lines(Example(w)), AllLayers(c, w, prefix), k)
  {
    hide Lines, IsIdent, Run, RenderScalar, CanonLine, ReplaceMap, ReplaceLiteral, EarlyLayers, LitTidy, RenderMap;
    hide FirstMatch;
    var e, early := Example(w), EarlyLayers(c, w, prefix);
    MapKeys();
    EarlyAvoidsMaps(c, w, prefix);
    RunCanonLine(e, early, k);
    var t1 := Run(e, early);
    if WritesEnvMap(c, w) {
      SettledRun(e, early, ENV_MAP);
      CanonLineReplaceMap(t1, ENV_MAP, w.secretEnv.value, k);
    }
    var t2 := WithEnvMap(c, w, t1);
    RunCanonLine(t2, w.overrides, k);
    if WritesSecretsMap(w) {
      LitTidyRun(e, early, SECRETS_MAP);
      if WritesEnvMap(c, w) { LitTidyReplaceMap(t1, w.secretEnv.value); }
      LitTidyRun(t2, w.overrides, SECRETS_MAP);
      CanonLineReplaceLiteral(Run(t2, w.overrides), SECRETS_MAP, w.operatorSecrets.value, k);
    }
    LastValueConcat(early, w.overrides, k);
  }

  lemma NeatEmpties(c: Config, w: World)
    requires Neat(c, w)
    ensures EmptiesTidy(c, w)
  {
    hide Lines, Settled;
  }

  /** The layers reach the written file: every scalar key has the line of its last layer there, except
      that the last step may set the public base URL once more. */
  lemma WrittenOverride(c: Config, w: World, existing: Option<string>, k: string)
    requires IdentKeys(w.overrides) && Neat(c, w) && IsScalarKey(k)
    requires Materialized(c, w, existing).Written?
    ensures var prefix := ResolvePrefix(c, w, existing);
            var url := UrlWritten(Seen(c, w, prefix, DNS_KEY), Seen(c, w, prefix, URL_KEY));
            CanonLine(Lines(Materialized(c, w, existing).text), k) ==
            if k == URL_KEY && url.Some? then Some(RenderScalar(URL_KEY, url.value))
            else LastLine(Lines(Example(w)), AllLayers(c, w, prefix), k)
  {
    hide Lines, Replace, IsIdent, Neat, CanonLine, Layered, ResolvePrefix, AllLayers, Read, UrlWritten, Seen,
      LastLine, RenderScalar, Settled;
    var prefix := ResolvePrefix(c, w, existing);
    var t := Layered(c, w, prefix);
    LayeredOverride(c, w, prefix, k);
    NeatEmpties(c, w);
    ScalarKeys();
    ReadLayered(c, w, prefix, DNS_KEY);
    ReadLayered(c, w, prefix, URL_KEY);
    var url := UrlWritten(Read(t, DNS_KEY), Read(t, URL_KEY));
    if url.Some? { CanonLineReplace(t, URL_KEY, url.value, k); }
  }

  /** A prefix given by environment variable is normalised when it is resolved, but the same variable
      is also an override, which writes the raw value last. The file holds the resolved prefix exactly
      when the raw value already is a name, or is unusable but was kept from the file before. */
  lemma ExplicitPrefixWrittenRaw(c: Config, w: World, existing: Option<string>, raw: string)
    requires IdentKeys(w.overrides) && Neat(c, w)
    requires Materialized(c, w, existing).Written?
    requires w.prefixVariable == Some(raw) && LastValue(w.overrides, PREFIX_KEY) == Some(raw)
    ensures CanonLine(Lines(Materialized(c, w, existing).text), PREFIX_KEY) == Some(RenderScalar(PREFIX_KEY, raw))
    ensures ResolvePrefix(c, w, existing) == raw <==>
            if Normalize(raw) != [] then IsName(raw)
            else
              existing.Some? && Read(existing.value, PREFIX_KEY) == Some(raw) && Trim(raw) != [] &&
              raw != LegacyPrefix(c.provider.AsStr(), c.tenant, c.environment)
  {
    hide Lines, IsIdent, Neat, CanonLine, Layered, RenderScalar, EarlyLayers, Normalize, IsName, NormalizedUrl, Read,
      Seen, UrlWritten, GeneratedPrefix, TrimBoth;
    ScalarKeys();
    WrittenOverride(c, w, existing, PREFIX_KEY);
    LastValueConcat(EarlyLayers(c, w, ResolvePrefix(c, w, existing)), w.overrides, PREFIX_KEY);
    NormalizeFixes(raw);
    EmptyIsNoName(raw);
    GeneratedPrefixIsName(LegacySeed(c.provider.AsStr(), c.tenant, c.environment) + NUL + w.localIdentity);
    NameIsNotEmpty(Stable(c, w));
  }

  lemma NameIsNotEmpty(r: string)
    ensures IsName(r) ==> r != []
  {
  }

  lemma EmptyIsNoName(raw: string)
    ensures Normalize(raw) != [] ==> raw != []
    ensures raw == [] ==> Normalize(raw) == raw
  {
    NormalizeEmpty([]);
  }
}
