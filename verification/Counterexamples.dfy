/** The properties that fail, each at one document. The laws say exactly when they fail. */
module Counterexamples {
  import opened Wrappers
  import opened Text
  import opened Json
  import opened Normalizer
  import opened Tfvars
  import opened TfvarsScalar
  import opened TfvarsMap
  import opened TfvarsMapLaws
  import opened TfvarsReach
  import opened TfvarsEditor
  import opened Materialize
  import opened Reading
  import opened Layers
  import opened PublicUrl
  import opened Sticky

  // ---------- line ends, and the two map editors ----------

  /** Writing the same value again drops one more carriage return of another line. */
  lemma RepeatedEditChangesText(v: string)
    ensures var c := "a\r\r\n"; Replace(Replace(c, "b", v), "b", v) != Replace(c, "b", v)
  {
    hide Replace, Lines, KeepsNoCr;
    LinesOfReturns();
    ReturnIsKept();
    LastWriteWins("a\r\r\n", "b", v, v);
  }

  lemma LinesOfReturns()
    ensures Lines("a\r\r\n") == ["a\r"]
  {
    hide Lines;
    var l := "a\r\r";
    assert Unlines([l]) == l + "\n" by { UnlinesOne(l); }
    assert l + "\n" == "a\r\r\n";
    LinesUnlines([l]);
    assert StripCrs([l]) == [StripCr(l)] && StripCr(l) == "a\r";
  }

  lemma ReturnIsKept()
    ensures !KeepsNoCr(["a\r"], "b")
  {
    hide Matches, First;
    var l := "a\r";
    OtherStart(l, "b");
    FirstMatchIs([l], "b", 1);
    assert [l][0] == l && EndsInCr(l);
  }

  /** A line that begins with another letter than a key does not assign the key. */
  lemma OtherStart(l: string, k: string)
    requires l != [] && k != [] && !IsSpace(l[0]) && l[0] != k[0]
    ensures !Matches(l, k)
  {
    hide TrimLeft, IsSpace;
    TrimLeftIs(l, IsSpace, 0);
    assert TrimStart(l)[0] == l[0] && (k + " =")[0] == k[0];
  }

  /** On a text without a final line feed the literal editor writes another text than the map editor. */
  lemma MapEditorsDiffer()
    ensures var m := [("x", "y")]; ReplaceLiteral("a", "k", RenderMap(m)) != ReplaceMap("a", "k", m)
  {
    hide Lines, ReplaceLiteral, ReplaceMap, RenderMap, FirstMatch, CanonicalKey, KeptBelow;
    LinesOfOne();
    NoKeyInOne();
    assert Unterminated("a");
    MapEditorsAgree("a", "k", [("x", "y")]);
  }

  lemma LinesOfOne()
    ensures Lines("a") == ["a"]
  {
    IndexOfIs("a", '\n', 1);
  }

  lemma NoKeyInOne()
    ensures FirstMatch(["a"], "k") == 1 && CanonicalKey(["a"], "k")
  {
    hide Matches, First;
    OtherStart("a", "k");
    FirstMatchIs(["a"], "k", 1);
  }

  // ---------- an example with a one-line environment map and no prefix ----------

  /** The example file of src/apply.rs:5948-5953. */
  function AwsLines(): seq<string> {
    ["", RenderScalar("cloud", "aws"), RenderScalar("tenant", "demo"), RenderScalar("environment", "dev"),
        EmptyMap(ENV_MAP)]
  }

  function AwsConfig(): Config {
    Config(Aws, "demo", "dev", Some("s3://bucket/bundle.gtbundle"), None, None, None)
  }

  function AwsWorld(identity: string, m: Entries, overrides: seq<Assignment>): World {
    World(Some(Unlines(AwsLines())), None, overrides, None, identity, "_", Some(m), None)
  }

  /** A line of another key is nothing to a search for j. */
  predicate IsOther(line: string, j: string) { IsLine(line) && !Matches(line, j) && ScanLine(line, j).Passed? }

  lemma ScalarIsOther(k: string, v: string, j: string)
    requires IsIdent(k) && IsIdent(j) && j != k
    ensures IsOther(RenderScalar(k, v), j)
  {
    hide IsIdent, RenderScalar, Matches, Parse, Value, Quote;
    ScalarLine(k, v);
    if Matches(RenderScalar(k, v), j) { MatchesOneKey(RenderScalar(k, v), j, k); }
  }

  lemma EmptyMapIsOther(k: string, j: string)
    requires IsIdent(k) && IsIdent(j) && j != k
    ensures IsOther(EmptyMap(k), j)
  {
    hide IsIdent, EmptyMap, Matches, Parse, TrimLeft, LitMatches, OpensBlock;
    EmptyMapLine(k);
    if Matches(EmptyMap(k), j) { MatchesOneKey(EmptyMap(k), j, k); }
  }

  lemma BlankIsOther(j: string)
    requires IsIdent(j)
    ensures IsOther("", j)
  {
    hide Matches, ScanLine;
    BlankAssignsNothing(j);
    assert [""][0] == "" && !Matches([""][0], j);
    BlankPasses(j);
    ScanOne("", j);
  }

  lemma {:induction false} OthersPass(ls: seq<string>, j: string)
    requires forall i | 0 <= i < |ls| :: IsOther(ls[i], j)
    ensures Scan(ls, j) == Passed && FirstMatch(ls, j) == |ls| && AllLines(ls)
  {
    hide Matches, ScanLine;
    FirstMatchIs(ls, j, |ls|);
    if ls != [] { OthersPass(ls[1..], j); }
  }

  lemma AwsKeys()
    ensures IsIdent("cloud") && IsIdent("tenant") && IsIdent("environment") && IsIdent(ENV_MAP)
    ensures |"cloud"| == 5 && |"tenant"| == 6 && |"environment"| == 11 && |ENV_MAP| == 18
  {
  }

  lemma AwsOther(j: string)
    requires IsIdent(j) && |j| !in {5, 6, 11, 18}
    ensures forall i | 0 <= i < 5 :: IsOther(AwsLines()[i], j)
  {
    hide RenderScalar, EmptyMap, IsOther, IsIdent;
    AwsKeys();
    BlankIsOther(j);
    ScalarIsOther("cloud", "aws", j);
    ScalarIsOther("tenant", "demo", j);
    ScalarIsOther("environment", "dev", j);
    EmptyMapIsOther(ENV_MAP, j);
  }

  /** The lines of the example, and what a search for a key that it lacks meets in it. */
  lemma AwsText(j: string)
    requires IsIdent(j) && |j| !in {5, 6, 11, 18}
    ensures Lines(Unlines(AwsLines())) == AwsLines()
    ensures Scan(AwsLines(), j) == Passed && FirstMatch(AwsLines(), j) == 5
  {
    hide AwsLines, IsOther, Scan, Unlines, Lines, IsIdent;
    assert |AwsLines()| == 5 by { AwsCount(); }
    AwsOther(j);
    OthersPass(AwsLines(), j);
    forall l | l in AwsLines() ensures OneLine(l) {
      var i :| 0 <= i < |AwsLines()| && AwsLines()[i] == l;
      assert IsLine(AwsLines()[i]);
    }
    LinesUnlines(AwsLines());
    StripCrsLines(AwsLines());
  }

  lemma AwsCount()
    ensures |AwsLines()| == 5
  {
  }

  lemma AwsMapAt()
    ensures FirstMatch(AwsLines(), ENV_MAP) == 4 && |AwsLines()| == 5
    ensures Settled(AwsLines(), ENV_MAP) && SetBlock(AwsLines(), ENV_MAP, [EmptyMap(ENV_MAP)]) == AwsLines()
  {
    hide RenderScalar, EmptyMap, IsOther, IsIdent, Matches, OpensBlock, TrimLeft, Parse, LitMatches, FirstMatch;
    AwsKeys();
    MapKeys();
    var ls := AwsLines();
    AwsOthersAbove();
    EmptyMapLine(ENV_MAP);
    assert ls[4] == EmptyMap(ENV_MAP);
    FirstMatchIs(ls, ENV_MAP, 4);
    assert ls[5..] == [];
  }

  lemma AwsOthersAbove()
    ensures forall i | 0 <= i < 4 :: !Matches(AwsLines()[i], ENV_MAP)
  {
    hide RenderScalar, EmptyMap, IsIdent, Matches, ScanLine;
    AwsKeys();
    BlankIsOther(ENV_MAP);
    ScalarIsOther("cloud", "aws", ENV_MAP);
    ScalarIsOther("tenant", "demo", ENV_MAP);
    ScalarIsOther("environment", "dev", ENV_MAP);
  }

  /** Searches meet the example as it is, also where its empty map is written once more. */
  lemma AwsShown(identity: string, m: Entries, overrides: seq<Assignment>, j: string)
    requires IsIdent(j) && |j| !in {5, 6, 11, 18}
    ensures var c, w := AwsConfig(), AwsWorld(identity, m, overrides);
            Lines(Example(w)) == AwsLines() && Lines(Shown(c, w)) == AwsLines() && EmptiesTidy(c, w)
  {
    hide AwsLines, Lines, Unlines, Settled, ReplaceMap, FirstMatch, IsIdent;
    AwsText(j);
    AwsMapAt();
    AwsEmptied(Example(AwsWorld(identity, m, overrides)), j);
  }

  lemma AwsEmptied(text: string, j: string)
    requires Lines(text) == AwsLines() && IsIdent(j) && |j| !in {5, 6, 11, 18}
    ensures Lines(ReplaceMap(text, ENV_MAP, [])) == AwsLines()
  {
    hide AwsLines, Lines, ReplaceMap, Block, SetBlock, IsIdent, StripCrs, AllLines, Settled, FirstMatch;
    MapKeys();
    AwsMapAt();
    LinesOfSetBlock(text, ENV_MAP, []);
    EmptyBlock(ENV_MAP);
    OthersAreLines(j);
    StripCrsLines(AwsLines());
  }

  lemma EmptyBlock(k: string)
    ensures Block(k, []) == [EmptyMap(k)]
  {
  }

  lemma OthersAreLines(j: string)
    requires IsIdent(j) && |j| !in {5, 6, 11, 18}
    ensures AllLines(AwsLines())
  {
    hide AwsLines, IsOther, IsIdent;
    AwsCount();
    AwsOther(j);
    OthersPass(AwsLines(), j);
  }

  /** The prefix of a first run on this example: read back if the resolved map is empty, lost if not. */
  lemma AwsPrefix(identity: string, m: Entries)
    ensures var c, w := AwsConfig(), AwsWorld(identity, m, []);
            var file := Materialized(c, w, None);
            file.Written? && Read(file.text, PREFIX_KEY) == if m == [] then Some(Stable(c, w)) else None
  {
    hide Read, Stable, Reach, Layered, NormalizedUrl, Plain, Quote, Value, EmptiesTidy, IsIdent, TrimBoth, AwsLines,
      Unlines;
    var c, w := AwsConfig(), AwsWorld(identity, m, []);
    AwsPrefixReach(identity, m);
    PrefixReadBack(c, w, Stable(c, w));
    StableIsKept(c, w);
  }

  lemma AwsPrefixReach(identity: string, m: Entries)
    ensures var c, w := AwsConfig(), AwsWorld(identity, m, []);
            EmptiesTidy(c, w) && Reach(c, w, PREFIX_KEY) == if m == [] then Passed else Stopped
  {
    hide AwsLines, Lines, Unlines, Reach, Shown, EmptiesTidy, FirstMatch, Scan, IsIdent;
    var c, w := AwsConfig(), AwsWorld(identity, m, []);
    ScalarKeys();
    assert |PREFIX_KEY| == 22;
    AwsShown(identity, m, [], PREFIX_KEY);
    AwsText(PREFIX_KEY);
    AwsMapAt();
    AwsReach(c, w, PREFIX_KEY);
    PrefixSeen(c, w);
  }

  lemma AwsReach(c: Config, w: World, j: string)
    requires Lines(Shown(c, w)) == AwsLines() && Scan(AwsLines(), j) == Passed && FirstMatch(AwsLines(), j) == 5
    ensures Above(Lines(Shown(c, w)), j) == Passed && (Reach(c, w, j) == Passed || Reach(c, w, j) == Stopped)
  {
    hide AwsLines, Lines, Shown, FirstMatch, Scan, EnvMapStops, SecretsStop;
    AwsCount();
    assert AwsLines()[..5] == AwsLines();
  }

  /** A host name given as an override on this example: seen if the resolved map is empty, and otherwise
      never, so that no public base URL is made of it. */
  lemma AwsHostName(identity: string, m: Entries, name: string, prefix: string)
    requires Plain(name)
    ensures var c, w := AwsConfig(), AwsWorld(identity, m, [(DNS_KEY, name)]);
            Read(Layered(c, w, prefix), DNS_KEY) == (if m == [] then Some(name) else None) &&
            Seen(c, w, prefix, DNS_KEY) == Read(Layered(c, w, prefix), DNS_KEY)
  {
    hide AwsLines, Lines, Unlines, Read, Reach, Shown, Layered, Plain, Quote, Value, EmptiesTidy, FirstMatch, Scan,
      IsIdent, EarlyLayers, TrimBoth;
    var overrides := [(DNS_KEY, name)];
    var c, w := AwsConfig(), AwsWorld(identity, m, overrides);
    ScalarKeys();
    assert |DNS_KEY| == 8;
    AwsShown(identity, m, overrides, DNS_KEY);
    AwsText(DNS_KEY);
    AwsCount();
    AwsReach(c, w, DNS_KEY);
    EarlyKeys(c, w, "");
    AbsentSeen(c, w, DNS_KEY);
    OverrideSeen(c, w, prefix, DNS_KEY, name);
    ReadLayered(c, w, prefix, DNS_KEY);
  }

  /** A host name below `example.com` leaves a placeholder in the written file. */
  lemma AwsPlaceholder(identity: string)
    ensures var c, w := AwsConfig(), AwsWorld(identity, [], [(DNS_KEY, "x.example.com")]);
            var file := Materialized(c, w, None);
            file.Written? && IsLeft(Read(file.text, URL_KEY))
  {
    hide AwsLines, Lines, Unlines, Read, Shown, Layered, NormalizedUrl, Plain, Seen, EmptiesTidy, FirstMatch, Scan,
      IsIdent, TrimBoth, ResolvePrefix, IsLeft, NamesPlaceholder, Above;
    var name := "x.example.com";
    var overrides := [(DNS_KEY, name)];
    var c, w := AwsConfig(), AwsWorld(identity, [], overrides);
    ScalarKeys();
    assert |URL_KEY| == 15;
    AwsShown(identity, [], overrides, URL_KEY);
    AwsText(URL_KEY);
    AwsReach(c, w, URL_KEY);
    PlaceholderName();
    AwsHostName(identity, [], name, ResolvePrefix(c, w, None));
    PlaceholderLeft(c, w, None);
  }

  lemma PlaceholderName()
    ensures var name := "x.example.com"; Plain(name) && NamesPlaceholder(name) && Trim(name) != []
  {
    hide TrimBoth, LowerAll, Contains, Plain;
    var name := "x.example.com";
    PlainHost();
    LowerHost();
    HostNamesExample();
    TrimBothAt(name, IsSpace, 0, |name|);
  }

  lemma PlainHost()
    ensures Plain("x.example.com")
  {
  }

  lemma LowerHost()
    ensures LowerAll("x.example.com") == "x.example.com"
  {
    hide LowerAll;
    var name := "x.example.com";
    assert forall c | c in name :: ToLower(c) == c;
    assert |LowerAll(name)| == |name| && forall i | 0 <= i < |name| :: LowerAll(name)[i] == ToLower(name[i]);
  }

  lemma HostNamesExample()
    ensures Contains("x.example.com", "example.com")
  {
    var name := "x.example.com";
    assert name == "x." + "example.com";
    assert name[2..] == "example.com";
  }

  // ---------- a map above the prefix ----------

  function LocalConfig(): Config { Config(Local, "demo", "dev", None, Some("sha256:0"), None, None) }

  function LabelLines(): seq<string> { [Header("labels"), "}", RenderScalar(PREFIX_KEY, "mine")] }

  function LocalWorld(identity: string): World {
    World(Some(Unlines(LabelLines())), None, [], None, identity, "_", None, None)
  }

  /** Below the closing brace of any map the prefix is written but never read. */
  lemma PrefixBelowLabels(identity: string)
    ensures var file := Materialized(LocalConfig(), LocalWorld(identity), None);
            file.Written? && Read(file.text, PREFIX_KEY) == None
  {
    hide Lines, Unlines, Read, Stable, Layered, NormalizedUrl, Quote, Value, Scan, IsIdent, LabelLines, FirstMatch,
      TrimBoth;
    var c, w := LocalConfig(), LocalWorld(identity);
    LabelText();
    PrefixReadBack(c, w, Stable(c, w));
  }

  lemma LabelText()
    ensures Lines(Unlines(LabelLines())) == LabelLines() && Above(LabelLines(), PREFIX_KEY) == Stopped
  {
    hide Header, RenderScalar, Matches, Scan, Parse, Lines, Unlines, IsIdent, TrimLeft, TrimBoth, LitMatches,
      OpensBlock, Value, Quote;
    var k, ls := "labels", LabelLines();
    ScalarKeys();
    LabelKey();
    HeaderLine(k);
    CloseLine();
    ScalarLine(PREFIX_KEY, "mine");
    if Matches(Header(k), PREFIX_KEY) { MatchesOneKey(Header(k), PREFIX_KEY, k); }
    QuotedLineIsNoAssignment("}", PREFIX_KEY);
    FirstMatchIs(ls, PREFIX_KEY, 2);
    assert ls[..2] == [Header(k)] + ["}"];
    ScanConsumes(Header(k), ["}"], PREFIX_KEY);
    HeaderPasses(k, PREFIX_KEY);
    ScanOne("}", PREFIX_KEY);
    CloseScan(PREFIX_KEY);
    LinesUnlines(ls);
    StripCrsLines(ls);
  }

  lemma LabelKey()
    ensures IsIdent("labels") && "labels" != PREFIX_KEY
  {
    assert |"labels"| == 6 && |PREFIX_KEY| == 22;
  }

  // ---------- a prefix that needs an escape ----------

  function PlainWorld(identity: string): World { World(None, None, [], None, identity, "_", None, None) }

  /** A prefix written by hand as `a\b` is read, used and written as `a\\b`, which the next run reads. */
  lemma BackslashGrows(identity: string)
    ensures var start := Unlines([PREFIX_KEY + " = \"a\\b\""]);
            var c, w := LocalConfig(), PlainWorld(identity);
            var file := Materialized(c, w, Some(start));
            ResolvePrefix(c, w, Some(start)) == "a\\b" &&
            file.Written? && Read(file.text, PREFIX_KEY) == Some("a\\\\b")
  {
    hide Lines, Unlines, Read, Stable, Layered, NormalizedUrl, Quote, Value, Scan, IsIdent, FirstMatch, TrimBoth;
    hide Plain, IsReadable, Legacy, Escape;
    var start, p := Unlines([PREFIX_KEY + " = \"a\\b\""]), "a\\b";
    var c, w := LocalConfig(), PlainWorld(identity);
    BackslashRead();
    BackslashIsKept(c);
    NothingAbove(c, w);
    PrefixReadBack(c, w, p);
    EscapeGrows(p);
    BackslashEscaped();
  }

  lemma BackslashRead()
    ensures Read(Unlines([PREFIX_KEY + " = \"a\\b\""]), PREFIX_KEY) == Some("a\\b")
  {
    hide Lines, Unlines, IsIdent, Value, OneLine, Parse;
    var rest := " \"a\\b\"";
    var l := PREFIX_KEY + " = \"a\\b\"";
    assert l == PREFIX_KEY + " =" + rest;
    ScalarKeys();
    BackslashValue(rest);
    KeyLineParses(PREFIX_KEY, rest);
    LinesUnlines([l]);
    assert StripCrs([l]) == [l];
    ScanOne(l, PREFIX_KEY);
  }

  lemma KeyLineParses(k: string, rest: string)
    requires IsIdent(k) && OneLine(rest) && rest != [] && !IsSpace(rest[|rest| - 1])
    ensures var l := k + " =" + rest;
            OneLine(l) && !EndsInCr(l) && Parse(l) == Bind(k, Value(rest))
  {
    hide TrimBoth, Value, ParseTrimmed, IsSpace;
    var l := k + " =" + rest;
    SpaceIsSpace();
    OneLineConcat(" =", rest);
    IdentOneLine(k, " =" + rest);
    assert k + (" =" + rest) == l;
    assert l[0] == k[0] && l[|l| - 1] == rest[|rest| - 1];
    IdentIsBare(k);
    TrimBothAt(l, IsSpace, 0, |l|);
    assert l[0..|l|] == l;
    IdentThenEquals(l, k);
    assert l[|k| + 2..] == rest;
  }

  lemma KeyStart()
    ensures !IsSpace(PREFIX_KEY[0]) && !IsSpace('"')
  {
  }

  lemma BackslashValue(rest: string)
    requires rest == " \"a\\b\""
    ensures OneLine(rest) && !IsSpace(rest[|rest| - 1]) && Value(rest) == "a\\b"
  {
    hide TrimBoth;
    IndexOfIs(rest, '#', 6);
    assert rest[..6] == rest;
    TrimBothAt(rest, IsSpace, 1, 6);
    var t := rest[1..6];
    assert t == "\"a\\b\"";
    TrimBothAt(t, IsQuote, 1, 4);
    assert t[1..4] == "a\\b";
  }

  lemma BackslashIsKept(c: Config)
    ensures Kept(c, "a\\b") && IsReadable("a\\b") && !Plain("a\\b")
  {
    hide TrimBoth, Legacy;
    var p := "a\\b";
    TrimBothAt(p, IsSpace, 0, 3);
    assert p[1] == BACKSLASH && BACKSLASH in p;
    LegacyIsPlain(c);
  }

  lemma NothingAbove(c: Config, w: World)
    requires w.example == None && !c.provider.IsCloud() && w.operatorSecrets == None
    ensures Reach(c, w, PREFIX_KEY) == Passed && EmptiesTidy(c, w)
  {
  }

  lemma BackslashEscaped()
    ensures Escape("a\\b") == "a\\\\b"
  {
    hide Escape;
    EscapeEmpty();
    EscapeNext("", 'a');
    EscapeNext("a", BACKSLASH);
    EscapeNext("a\\", 'b');
    assert "" + ['a'] == "a" && "a" + [BACKSLASH] == "a\\" && "a\\" + ['b'] == "a\\b";
  }

  lemma EscapeNext(w: string, c: char)
    ensures Escape(w + [c]) == Escape(w) + EscapeChar(c)
  {
    hide EscapeChar;
    assert (w + [c])[..|w|] == w;
  }

  // ---------- a padded line ----------

  /** A key with any number of spaces but one before `=` is an assignment for the reader and none for the
      editors. */
  lemma PaddedLine(k: string, n: nat, rest: string)
    requires IsIdent(k) && n != 1 && OneLine(rest) && rest != [] && !IsSpace(rest[|rest| - 1])
    ensures var l := k + seq(n, _ => ' ') + "=" + rest;
            OneLine(l) && !EndsInCr(l) && !Matches(l, k) && BindsKey(l, k)
  {
    hide IsIdent, IsSpace, Matches, BindsKey;
    var pad := seq(n, _ => ' ');
    PaddedOneLine(k, pad, rest);
    PaddedNoMatch(k, pad, rest);
    PaddedBinds(k, pad, rest);
  }

  lemma PaddedNoMatch(k: string, pad: string, rest: string)
    requires IsIdent(k) && |pad| != 1 && forall c | c in pad :: c == ' '
    ensures !Matches(k + pad + "=" + rest, k)
  {
    hide TrimLeft, IsSpace;
    var l := k + pad + "=" + rest;
    assert l[0] == k[0];
    IdentIsBare(k);
    TrimLeftIs(l, IsSpace, 0);
    assert l[0..] == l;
    var p := k + " =";
    assert p[|k|] == ' ' && p[|k| + 1] == '=';
    if pad == [] { assert l[|k|] == '='; } else { assert l[|k| + 1] == pad[1] && pad[1] in pad; }
  }

  lemma PaddedBinds(k: string, pad: string, rest: string)
    requires IsIdent(k) && (forall c | c in pad :: c == ' ') && rest != [] && !IsSpace(rest[|rest| - 1])
    ensures BindsKey(k + pad + "=" + rest, k)
  {
    hide TrimBoth, Value, IsSpace;
    var l := k + pad + "=" + rest;
    SpaceIsSpace();
    assert l[0] == k[0] && l[|l| - 1] == rest[|rest| - 1];
    IdentIsBare(k);
    TrimBothAt(l, IsSpace, 0, |l|);
    assert l[0..|l|] == l;
    PaddedEquals(k, pad, rest);
    var u := l[..|k| + |pad|];
    assert u == k + pad && u[|k| - 1] == k[|k| - 1];
    forall i | |k| <= i < |u| ensures IsSpace(u[i]) { assert u[i] == pad[i - |k|] && pad[i - |k|] in pad; }
    TrimBothAt(u, IsSpace, 0, |k|);
    assert u[0..|k|] == k;
  }

  lemma PaddedEquals(k: string, pad: string, rest: string)
    requires IsIdent(k) && forall c | c in pad :: c == ' '
    ensures IndexOf(k + pad + "=" + rest, '=') == |k| + |pad|
  {
    hide IndexOf;
    var l := k + pad + "=" + rest;
    forall i | 0 <= i < |k| + |pad| ensures l[i] != '=' {
      if i < |k| { assert l[i] == k[i] && k[i] in k; } else { assert l[i] == pad[i - |k|] && pad[i - |k|] in pad; }
    }
    IndexOfIs(l, '=', |k| + |pad|);
  }

  lemma SpaceIsSpace()
    ensures IsSpace(' ') && IsSpace('\r')
  {
  }

  lemma IdentIsBare(k: string)
    requires IsIdent(k)
    ensures !IsSpace(k[0]) && !IsSpace(k[|k| - 1]) && k[0] != '#' && k[0] != '/'
  {
    assert k[0] in k && k[|k| - 1] in k;
  }

  lemma PaddedOneLine(k: string, pad: string, rest: string)
    requires IsIdent(k) && (forall c | c in pad :: c == ' ') && OneLine(rest) && rest != []
    requires !IsSpace(rest[|rest| - 1])
    ensures var l := k + pad + "=" + rest; OneLine(l) && !EndsInCr(l)
  {
    var l := k + pad + "=" + rest;
    forall c | c in l ensures c != '\n' { assert c in k || c in pad || c == '=' || c in rest; }
  }

  /** The editor wants one space before `=`: a padded line of an example is not replaced, so that the key
      is assigned twice, as with fixtures/packs/tenant-manager-azure/terraform/staging.tfvars.example. */
  lemma PaddedLineStays(v: string)
    ensures var k := "azure_location";
            var c := Unlines([k + seq(17, _ => ' ') + "=" + " \"eastus\""]);
            CountBinds(Lines(c), k) == 1 && CountBinds(Lines(Replace(c, k, v)), k) == 2
  {
    hide Lines, Unlines, Replace, FirstMatch, CountBinds, IsIdent, Matches, BindsKey, IsSpace;
    var k, rest := "azure_location", " \"eastus\"";
    var l := k + seq(17, _ => ' ') + "=" + rest;
    AzureKey();
    assert |rest| == 9 && rest[8] == '"' && !IsSpace('"') by { KeyStart(); }
    PaddedLine(k, 17, rest);
    AssignedTwice(l, k, v);
  }

  lemma AzureKey()
    ensures IsIdent("azure_location") && OneLine(" \"eastus\"")
  {
  }

  lemma AssignedTwice(l: string, k: string, v: string)
    requires IsIdent(k) && OneLine(l) && !EndsInCr(l) && !Matches(l, k) && BindsKey(l, k)
    ensures CountBinds(Lines(Unlines([l])), k) == 1 && CountBinds(Lines(Replace(Unlines([l]), k, v)), k) == 2
  {
    hide Lines, Unlines, Replace, FirstMatch, CountBinds, IsIdent, Matches, BindsKey, OneLine;
    LinesUnlines([l]);
    assert StripCrs([l]) == [l];
    FirstMatchIs([l], k, 1);
    CountBindsReplace(Unlines([l]), k, v, k);
    CountBindsOne(l, k);
  }

  lemma CountBindsOne(l: string, k: string)
    ensures CountBinds([l], k) == if BindsKey(l, k) then 1 else 0
  {
    hide BindsKey;
    assert [l][1..] == [];
  }

  // ---------- a prefix set by hand ----------

  /** `My App` is resolved to a name but written as it was given. */
  lemma RawPrefix(identity: string)
    ensures var raw := "My App";
            var w := World(None, None, [(PREFIX_KEY, raw)], Some(raw), identity, "_", None, None);
            var file := Materialized(LocalConfig(), w, None);
            file.Written? && CanonLine(Lines(file.text), PREFIX_KEY) == Some(RenderScalar(PREFIX_KEY, raw)) &&
            ResolvePrefix(LocalConfig(), w, None) != raw
  {
    hide Lines, CanonLine, RenderScalar, Layered, NormalizedUrl, ResolvePrefix, Normalize, IsIdent, Read;
    var raw := "My App";
    var w := World(None, None, [(PREFIX_KEY, raw)], Some(raw), identity, "_", None, None);
    ScalarKeys();
    assert !IsName(raw) by { assert raw[0] == 'M' && !IsLowerLetter('M'); }
    ExplicitPrefixWrittenRaw(LocalConfig(), w, None, raw);
  }
}
