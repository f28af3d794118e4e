/** What can be read back from the file that a run of `materialize_generated_tfvars` writes, told from the
    example file, the layers and the two maps alone. */
module Reading {
  import opened Wrappers
  import opened Text
  import opened Json
  import opened Tfvars
  import opened TfvarsScalar
  import opened TfvarsMap
  import opened TfvarsMapLaws
  import opened TfvarsReach
  import opened Materialize

  // ---------- the keys of the layers ----------

  const DNS_KEY := "dns_name"
  const URL_KEY := "public_base_url"

  predicate IsMapKey(k: string) { k == ENV_MAP || k == SECRETS_MAP }

  /** A variable name that is not one of the generated maps. */
  predicate IsScalarKey(k: string) { IsIdent(k) && !IsMapKey(k) }

  lemma MapKeys()
    ensures IsIdent(ENV_MAP) && IsIdent(SECRETS_MAP) && ENV_MAP != SECRETS_MAP
    ensures |ENV_MAP| == 18 && ENV_MAP[1] == 'u' && |SECRETS_MAP| == 11 && SECRETS_MAP[0] == 's'
  {
  }

  lemma ScalarKeys()
    ensures IsScalarKey(PREFIX_KEY) && IsScalarKey(DNS_KEY) && IsScalarKey(URL_KEY)
    ensures PREFIX_KEY != URL_KEY && DNS_KEY != URL_KEY
  {
    assert |PREFIX_KEY| == 22 && |DNS_KEY| == 8 && |URL_KEY| == 15;
    MapKeys();
  }

  /** A key that a layer below the overrides sets, other than the prefix. */
  predicate IsLayerKey(k: string) { IsScalarKey(k) && |k| != 22 && |k| != 8 }

  lemma HeadKeys(c: Config)
    ensures forall e | e in HeadLayer(c) :: IsLayerKey(e.0)
  {
    assert |"cloud"| == 5 && |"tenant"| == 6 && |"environment"| == 11 && "environment"[0] == 'e';
    MapKeys();
    assert IsLayerKey("cloud") && IsLayerKey("tenant") && IsLayerKey("environment");
  }

  lemma ImageKeys()
    ensures IsLayerKey("operator_image") && IsLayerKey("operator_image_digest")
  {
    assert |"operator_image"| == 14 && |"operator_image_digest"| == 21;
    MapKeys();
  }

  lemma BackendKey()
    ensures IsLayerKey("remote_state_backend")
  {
    assert |"remote_state_backend"| == 20;
    MapKeys();
  }

  lemma RegionKeys()
    ensures IsLayerKey("azure_location") && IsLayerKey("gcp_region")
  {
    assert |"azure_location"| == 14 && |"gcp_region"| == 10;
    MapKeys();
  }

  lemma ContractKeys(c: Config, w: World)
    ensures forall e | e in ContractLayer(c, w) :: IsLayerKey(e.0)
  {
    hide IsLayerKey, OperatorImage;
    ImageKeys();
    BackendKey();
    RegionKeys();
  }

  lemma BundleKeys(c: Config)
    ensures forall e | e in BundleLayer(c) :: IsLayerKey(e.0)
  {
    hide S3Arn;
    assert |"bundle_source"| == 13 && |"bundle_s3_object_arn"| == 20 && |"bundle_digest"| == 13;
    MapKeys();
    RegistryKeys();
    assert IsLayerKey("bundle_source") && IsLayerKey("bundle_s3_object_arn") && IsLayerKey("bundle_digest");
  }

  lemma RegistryKeys()
    ensures IsLayerKey("repo_registry_base") && IsLayerKey("store_registry_base")
  {
    assert |"repo_registry_base"| == 18 && "repo_registry_base"[1] == 'e' && |"store_registry_base"| == 19;
    MapKeys();
  }

  lemma SecretKeys(c: Config, w: World)
    ensures forall e | e in SecretLayer(c, w) :: IsLayerKey(e.0)
  {
    assert |"runtime_secret_prefix"| == 21;
    MapKeys();
    assert IsLayerKey("runtime_secret_prefix");
  }

  lemma {:induction false} NoLastValue(edits: seq<Assignment>, k: string)
    requires forall e | e in edits :: e.0 != k
    ensures LastValue(edits, k) == None
  {
    if edits != [] {
      assert edits[|edits| - 1] in edits;
      NoLastValue(edits[..|edits| - 1], k);
    }
  }

  /** The layers before the overrides set scalar variables only, and the prefix once. */
  lemma EarlyKeys(c: Config, w: World, prefix: string)
    ensures forall e | e in EarlyLayers(c, w, prefix) :: IsScalarKey(e.0)
    ensures LastValue(EarlyLayers(c, w, prefix), PREFIX_KEY) == Some(prefix)
    ensures LastValue(EarlyLayers(c, w, prefix), DNS_KEY) == None
  {
    hide IsScalarKey, HeadLayer, ContractLayer, BundleLayer, SecretLayer;
    HeadKeys(c);
    ContractKeys(c, w);
    BundleKeys(c);
    SecretKeys(c, w);
    ScalarKeys();
    var own, later := [(PREFIX_KEY, prefix)], ContractLayer(c, w) + BundleLayer(c) + SecretLayer(c, w);
    assert |PREFIX_KEY| == 22 && |DNS_KEY| == 8;
    NoLastValue(later, PREFIX_KEY);
    LastValueConcat(HeadLayer(c) + own, later, PREFIX_KEY);
    LastValueConcat(HeadLayer(c), own, PREFIX_KEY);
    NoLastValue(EarlyLayers(c, w, prefix), DNS_KEY);
  }

  lemma EarlyAvoidsMaps(c: Config, w: World, prefix: string)
    ensures IdentKeys(EarlyLayers(c, w, prefix))
    ensures LastValue(EarlyLayers(c, w, prefix), ENV_MAP) == None &&
              LastValue(EarlyLayers(c, w, prefix), SECRETS_MAP) == None
  {
    hide EarlyLayers, IsIdent;
    EarlyKeys(c, w, prefix);
    NoLastValue(EarlyLayers(c, w, prefix), ENV_MAP);
    NoLastValue(EarlyLayers(c, w, prefix), SECRETS_MAP);
  }

  // ---------- how far a search gets in the written file ----------

  /** The run writes an empty environment map over one that the example has. */
  predicate EmptiesMap(c: Config, w: World) {
    var ls := Lines(Example(w));
    c.provider.IsCloud() && w.secretEnv == Some([]) && FirstMatch(ls, ENV_MAP) < |ls|
  }

  /** The example as far as searches are concerned: with its environment map emptied if the run empties it. */
  function Shown(c: Config, w: World): string {
    if EmptiesMap(c, w) then ReplaceMap(Example(w), ENV_MAP, []) else Example(w)
  }

  /** A search for j meets an environment map that is written over several lines. */
  predicate EnvMapStops(c: Config, w: World, j: string) {
    c.provider.IsCloud() && w.secretEnv.Some? && w.secretEnv.value != [] &&
    Meets(Lines(Example(w)), EarlyLayers(c, w, ""), ENV_MAP, j, false)
  }

  /** A search for j meets the operator secrets. If an override sets `secrets_map` first, they are
      written over that line. */
  predicate SecretsStop(c: Config, w: World, j: string) {
    w.operatorSecrets.Some? && w.operatorSecrets.value != [] &&
    Meets(Lines(Shown(c, w)), AllLayers(c, w, ""), SECRETS_MAP, j, LastValue(w.overrides, SECRETS_MAP) == None)
  }

  /** Which keys the layers set, and in which order, does not depend on the value of the prefix. */
  lemma AnyPrefix(c: Config, w: World, prefix: string, rest: seq<Assignment>, ls: seq<string>, b: string, j: string,
      literal: bool)
    ensures Meets(ls, EarlyLayers(c, w, prefix) + rest, b, j, literal) ==
            Meets(ls, EarlyLayers(c, w, "") + rest, b, j, literal)
  {
    hide Leader, HeadLayer, ContractLayer, BundleLayer, SecretLayer, FirstMatch, Place, Scan;
    var head, later := HeadLayer(c), ContractLayer(c, w) + BundleLayer(c) + SecretLayer(c, w);
    PrefixLeader(head, prefix, later, rest, b, j);
    PrefixLeader(head, "", later, rest, b, j);
  }

  lemma PrefixLeader(head: seq<Assignment>, prefix: string, later: seq<Assignment>, rest: seq<Assignment>, b: string,
      j: string)
    ensures var leader := Leader(head + [(PREFIX_KEY, prefix)] + later + rest, b, j);
            if Leader(head, b, j).Some? then leader == Leader(head, b, j)
            else if PREFIX_KEY == b || PREFIX_KEY == j then leader == Some(PREFIX_KEY)
            else leader == Leader(later + rest, b, j)
  {
    hide Leader;
    LeaderConcat(head + [(PREFIX_KEY, prefix)] + later, rest, b, j);
    LeaderConcat(head + [(PREFIX_KEY, prefix)], later, b, j);
    LeaderConcat(head, [(PREFIX_KEY, prefix)], b, j);
    LeaderOne(PREFIX_KEY, prefix, b, j);
    LeaderConcat(later, rest, b, j);
  }

  /** What a search for j comes to at the place of j in the text that a run lays out. */
  function Reach(c: Config, w: World, j: string): Search {
    if EnvMapStops(c, w, j) || SecretsStop(c, w, j) then Stopped else Above(Lines(Shown(c, w)), j)
  }

  /** A map of the example that will be emptied is tidy. */
  predicate EmptiesTidy(c: Config, w: World) { EmptiesMap(c, w) ==> Settled(Lines(Example(w)), ENV_MAP) }

  /** The line that the last layer to set k writes, or the first line of k in a text. */
  function LastLine(ls: seq<string>, edits: seq<Assignment>, k: string): Option<string> {
    match LastValue(edits, k)
    case Some(v) => Some(RenderScalar(k, v))
    case None => CanonLine(ls, k)
  }

  /** The text after the environment map was written. */
  function Mapped(c: Config, w: World, prefix: string): string {
    WithEnvMap(c, w, Run(Example(w), EarlyLayers(c, w, prefix)))
  }

  lemma LastLineRun(c: string, x: seq<Assignment>, y: seq<Assignment>, j: string)
    requires IdentKeys(x) && IdentKeys(y) && IsIdent(j)
    ensures LastLine(Lines(Run(c, x)), y, j) == LastLine(Lines(c), x + y, j)
  {
    hide Lines, Run, IsIdent, CanonLine, RenderScalar;
    RunCanonLine(c, x, j);
    LastValueConcat(x, y, j);
  }

  /** The text at the environment map, as later steps see it: how far a search for j gets, the line it
      gets to, and whether it meets the place of the operator secrets. */
  predicate MappedLike(c: Config, w: World, prefix: string, j: string, literal: bool) {
    var es, shown := Lines(Mapped(c, w, prefix)), Lines(Shown(c, w));
    Above(es, j) == (if EnvMapStops(c, w, j) then Stopped else Above(shown, j)) &&
    (Above(es, j).Passed? ==> LastLine(es, w.overrides, j) == LastLine(shown, AllLayers(c, w, prefix), j)) &&
    (!EnvMapStops(c, w, j) ==>
       Meets(es, w.overrides, SECRETS_MAP, j, literal) == Meets(shown, AllLayers(c, w, ""), SECRETS_MAP, j, literal))
  }

  /** Without a map that is written over several lines, only scalar edits separate the two texts. */
  lemma MappedByRun(c: Config, w: World, prefix: string, j: string, literal: bool)
    requires IsScalarKey(j) && IdentKeys(w.overrides)
    requires Mapped(c, w, prefix) == Run(Shown(c, w), EarlyLayers(c, w, prefix)) && !EnvMapStops(c, w, j)
    ensures MappedLike(c, w, prefix, j, literal)
  {
    hide Lines, Run, IsIdent, LastLine, Above, Meets, Shown, Mapped, EnvMapStops, EarlyLayers;
    var early := EarlyLayers(c, w, prefix);
    MapKeys();
    EarlyAvoidsMaps(c, w, prefix);
    AboveRun(Shown(c, w), early, j);
    LastLineRun(Shown(c, w), early, w.overrides, j);
    MeetsRun(Shown(c, w), early, w.overrides, SECRETS_MAP, j, literal);
    AnyPrefix(c, w, prefix, w.overrides, Lines(Shown(c, w)), SECRETS_MAP, j, literal);
  }

  /** An empty map that is added at the end does not matter. */
  lemma MappedByEmptyMap(c: Config, w: World, prefix: string, j: string, literal: bool)
    requires IsScalarKey(j) && IdentKeys(w.overrides)
    requires c.provider.IsCloud() && w.secretEnv == Some([]) && !EmptiesMap(c, w)
    ensures MappedLike(c, w, prefix, j, literal)
  {
    hide Lines, Run, IsIdent, LastLine, Above, Meets, EarlyLayers, Matches, Parse, StripCrs, FirstMatch, ReplaceMap;
    var early := EarlyLayers(c, w, prefix);
    var t := Run(Example(w), early);
    MapKeys();
    EarlyAvoidsMaps(c, w, prefix);
    AboveRun(Example(w), early, j);
    LastLineRun(Example(w), early, w.overrides, j);
    MeetsRun(Example(w), early, w.overrides, SECRETS_MAP, j, literal);
    AnyPrefix(c, w, prefix, w.overrides, Lines(Example(w)), SECRETS_MAP, j, literal);
    StaysAbsent(Example(w), early, ENV_MAP);
    AddedEmptyMap(t, ENV_MAP, j);
    AddedEmptyMapMeets(t, ENV_MAP, w.overrides, SECRETS_MAP, j, literal);
    LastLineSame(Lines(Mapped(c, w, prefix)), Lines(t), w.overrides, j);
  }

  lemma LastLineSame(a: seq<string>, b: seq<string>, edits: seq<Assignment>, j: string)
    requires CanonLine(a, j) == CanonLine(b, j)
    ensures LastLine(a, edits, j) == LastLine(b, edits, j)
  {
  }

  lemma StaysAbsent(c: string, edits: seq<Assignment>, b: string)
    requires IdentKeys(edits) && IsIdent(b) && LastValue(edits, b) == None && FirstMatch(Lines(c), b) == |Lines(c)|
    ensures FirstMatch(Lines(Run(c, edits)), b) == |Lines(Run(c, edits))|
  {
    hide Lines, Run, IsIdent, Matches;
    RunCanonLine(c, edits, b);
  }

  lemma LinesOfEmptyMap(c: string, b: string)
    requires IsIdent(b) && FirstMatch(Lines(c), b) == |Lines(c)|
    ensures Lines(ReplaceMap(c, b, [])) == StripCrs(SetLine(Lines(c), b, EmptyMap(b)))
    ensures AssignsKey(EmptyMap(b), b)
  {
    hide Lines, ReplaceMap, IsIdent, FirstMatch, Matches, Parse, EmptyMap;
    LinesOfSetBlock(c, b, []);
    EmptyMapLine(b);
    assert SetBlock(Lines(c), b, [EmptyMap(b)]) == SetLine(Lines(c), b, EmptyMap(b));
  }

  lemma AddedEmptyMap(c: string, b: string, j: string)
    requires IsIdent(b) && IsIdent(j) && b != j && FirstMatch(Lines(c), b) == |Lines(c)|
    ensures var es, ls := Lines(ReplaceMap(c, b, [])), Lines(c);
            Above(es, j) == Above(ls, j) && CanonLine(es, j) == CanonLine(ls, j)
  {
    hide Lines, ReplaceMap, IsIdent, FirstMatch, AssignsKey, EmptyMap, Above, SetLine, StripCrs, CanonLine;
    var es := SetLine(Lines(c), b, EmptyMap(b));
    LinesOfEmptyMap(c, b);
    AboveSetLine(Lines(c), b, EmptyMap(b), j);
    AboveStripCrs(es, j);
    AbsentIsTidy(Lines(c), b);
    CanonLineReplaceMap(c, b, [], j);
  }

  lemma AbsentIsTidy(ls: seq<string>, b: string)
    requires FirstMatch(ls, b) == |ls|
    ensures Tidy(ls, b)
  {
  }

  lemma AddedEmptyMapMeets(c: string, b: string, rest: seq<Assignment>, s: string, j: string, literal: bool)
    requires IsIdent(b) && IsIdent(j) && IsIdent(s) && b != j && s != j && s != b &&
              FirstMatch(Lines(c), b) == |Lines(c)|
    ensures Meets(Lines(ReplaceMap(c, b, [])), rest, s, j, literal) == Meets(Lines(c), rest, s, j, literal)
  {
    hide Lines, ReplaceMap, IsIdent, FirstMatch, AssignsKey, EmptyMap, Meets, SetLine, StripCrs;
    LinesOfEmptyMap(c, b);
    MeetsSetLine(Lines(c), b, EmptyMap(b), "", rest, s, j, literal);
    MeetsStripCrs(SetLine(Lines(c), b, EmptyMap(b)), rest, s, j, literal);
    MeetsOther(Lines(c), b, "", rest, s, j, literal);
  }

  lemma MeetsOther(ls: seq<string>, b: string, v: string, rest: seq<Assignment>, s: string, j: string, literal: bool)
    requires b != s && b != j
    ensures Meets(ls, [(b, v)] + rest, s, j, literal) == Meets(ls, rest, s, j, literal)
  {
    hide FirstMatch, Place, Scan, Leader;
    LeaderConcat([(b, v)], rest, s, j);
    LeaderOne(b, v, s, j);
  }

  lemma MappedByLongMap(c: Config, w: World, prefix: string, j: string, literal: bool)
    requires IsScalarKey(j) && IdentKeys(w.overrides)
    requires c.provider.IsCloud() && w.secretEnv.Some? && w.secretEnv.value != []
    ensures MappedLike(c, w, prefix, j, literal)
  {
    hide Lines, Run, IsIdent, CanonLine, Above, Meets, EarlyLayers, ReplaceMap;
    var early, m := EarlyLayers(c, w, prefix), w.secretEnv.value;
    var t := Run(Example(w), early);
    MapKeys();
    EarlyAvoidsMaps(c, w, prefix);
    AboveRun(Example(w), early, j);
    LastLineRun(Example(w), early, w.overrides, j);
    MeetsRun(Example(w), early, w.overrides, SECRETS_MAP, j, literal);
    AnyPrefix(c, w, prefix, w.overrides, Lines(Example(w)), SECRETS_MAP, j, literal);
    MeetsRun(Example(w), early, [], ENV_MAP, j, false);
    AnyPrefix(c, w, prefix, [], Lines(Example(w)), ENV_MAP, j, false);
    assert early + [] == early && EarlyLayers(c, w, "") + [] == EarlyLayers(c, w, "");
    MapReach(t, ENV_MAP, m, j);
    if !EnvMapStops(c, w, j) { MapMeets(t, ENV_MAP, m, w.overrides, SECRETS_MAP, j, literal); }
  }

  lemma MappedReach(c: Config, w: World, prefix: string, j: string, literal: bool)
    requires IsScalarKey(j) && IdentKeys(w.overrides) && EmptiesTidy(c, w)
    ensures MappedLike(c, w, prefix, j, literal)
  {
    hide Lines, Run, IsIdent, Meets, EarlyLayers, ReplaceMap, MappedLike, Settled, FirstMatch;
    if c.provider.IsCloud() && w.secretEnv.Some? && w.secretEnv.value != [] {
      MappedByLongMap(c, w, prefix, j, literal);
    } else if c.provider.IsCloud() && w.secretEnv == Some([]) && !EmptiesMap(c, w) {
      MappedByEmptyMap(c, w, prefix, j, literal);
    } else {
      if EmptiesMap(c, w) {
        MapKeys();
        EarlyAvoidsMaps(c, w, prefix);
        assert FirstMatch(Lines(Example(w)), ENV_MAP) < |Lines(Example(w))|;
        RunCommutes(Example(w), EarlyLayers(c, w, prefix), ENV_MAP, []);
      }
      MappedByRun(c, w, prefix, j, literal);
    }
  }

  /** How far a search gets after all layers, and the line it gets to, from the example alone. */
  lemma LayeredReach(c: Config, w: World, prefix: string, j: string)
    requires IsScalarKey(j) && IdentKeys(w.overrides) && EmptiesTidy(c, w)
    ensures var es := Lines(Layered(c, w, prefix));
            Above(es, j) == Reach(c, w, j) &&
            (Above(es, j).Passed? ==> CanonLine(es, j) == LastLine(Lines(Shown(c, w)), AllLayers(c, w, prefix), j))
  {
    hide Lines, Run, IsIdent, Meets, EarlyLayers, ReplaceLiteral, Shown, Mapped, CanonLine, Above, EnvMapStops,
      LastLine, RenderMap, AllLayers, EmptiesTidy;
    var literal := LastValue(w.overrides, SECRETS_MAP) == None;
    var t := Mapped(c, w, prefix);
    var over := Run(t, w.overrides);
    MapKeys();
    MappedReach(c, w, prefix, j, literal);
    AboveRun(t, w.overrides, j);
    OverLastLine(t, w.overrides, j);
    LayeredIs(c, w, prefix);
    if w.operatorSecrets.Some? && w.operatorSecrets.value != [] {
      LiteralReach(over, SECRETS_MAP, w.operatorSecrets.value, j);
      MeetsSecrets(t, w.overrides, j);
      if EnvMapStops(c, w, j) { assert Above(Lines(over), j) == Stopped; }
    }
  }

  lemma LayeredIs(c: Config, w: World, prefix: string)
    ensures Layered(c, w, prefix) == WithSecretsMap(w, Run(Mapped(c, w, prefix), w.overrides))
  {
    hide Run, WithSecretsMap, WithEnvMap;
  }

  lemma OverLastLine(t: string, edits: seq<Assignment>, j: string)
    requires IdentKeys(edits) && IsIdent(j)
    ensures CanonLine(Lines(Run(t, edits)), j) == LastLine(Lines(t), edits, j)
  {
    hide Lines, Run, IsIdent, CanonLine;
    RunCanonLine(t, edits, j);
  }

  /** The place where the operator secrets are written, told before the overrides. */
  lemma MeetsSecrets(t: string, edits: seq<Assignment>, j: string)
    requires IsScalarKey(j) && IdentKeys(edits)
    ensures Meets(Lines(Run(t, edits)), [], SECRETS_MAP, j, true) ==
            Meets(Lines(t), edits, SECRETS_MAP, j, LastValue(edits, SECRETS_MAP) == None)
  {
    hide Lines, Run, IsIdent, FirstMatch, LitFirst, Scan;
    MapKeys();
    var literal := LastValue(edits, SECRETS_MAP) == None;
    assert edits + [] == edits;
    MeetsRun(t, edits, [], SECRETS_MAP, j, literal);
    if !literal { LitPlaceSet(t, edits, SECRETS_MAP); }
  }

  /** What can be read for j in the text that a run lays out: the last layer's value as quoted and cut, or
      the example's, if the search gets to j, and otherwise whatever ends the search above. */
  function Seen(c: Config, w: World, prefix: string, j: string): Option<string> {
    if Reach(c, w, j).Passed? then
      match LastValue(AllLayers(c, w, prefix), j)
      case Some(v) => Some(Value(" " + Quote(v)))
      case None => Read(Shown(c, w), j)
    else Reach(c, w, j).ToOption()
  }

  lemma ReadLayered(c: Config, w: World, prefix: string, j: string)
    requires IsScalarKey(j) && IdentKeys(w.overrides) && EmptiesTidy(c, w)
    ensures Read(Layered(c, w, prefix), j) == Seen(c, w, prefix, j)
  {
    hide Lines, IsIdent, Layered, Shown, CanonLine, Above, EnvMapStops, SecretsStop, AllLayers, EmptiesTidy, Scan,
      RenderScalar, Quote, Value, ScanLine;
    LayeredReach(c, w, prefix, j);
    ScanByAbove(Lines(Layered(c, w, prefix)), j);
    match LastValue(AllLayers(c, w, prefix), j)
    case Some(v) => ScalarLineScan(j, v);
    case None => ScanByAbove(Lines(Shown(c, w)), j);
  }

  lemma ScalarLineScan(k: string, v: string)
    requires IsIdent(k)
    ensures ScanLine(RenderScalar(k, v), k) == Found(Value(" " + Quote(v)))
  {
    hide RenderScalar, IsIdent, Value, Quote, Parse;
    ScalarLine(k, v);
  }

  /** Seen in the example: the prefix can be read from the written file if and only if nothing in the
      example ends the search above it, and neither map stands above it when it is written with entries. */
  lemma PrefixSeen(c: Config, w: World)
    ensures var ls, shown := Lines(Example(w)), Lines(Shown(c, w));
            Reach(c, w, PREFIX_KEY).Passed? <==>
            Above(shown, PREFIX_KEY).Passed? &&
            (c.provider.IsCloud() && w.secretEnv.Some? && w.secretEnv.value != [] ==>
               FirstMatch(ls, PREFIX_KEY) <= FirstMatch(ls, ENV_MAP)) &&
            (w.operatorSecrets.Some? && w.operatorSecrets.value != [] ==>
               FirstMatch(shown, PREFIX_KEY) <= Place(shown, SECRETS_MAP, LastValue(w.overrides, SECRETS_MAP) == None))
  {
    hide Lines, FirstMatch, Place, Scan, EarlyLayers, Leader, EmptiesMap;
    var ls, shown, literal := Lines(Example(w)), Lines(Shown(c, w)), LastValue(w.overrides, SECRETS_MAP) == None;
    PrefixLeads(c, w, ENV_MAP, []);
    PrefixLeads(c, w, SECRETS_MAP, w.overrides);
    assert EarlyLayers(c, w, "") + [] == EarlyLayers(c, w, "");
    PlaceOf(ls, ls, ENV_MAP);
    ScanUpTo(ls, FirstMatch(ls, ENV_MAP), PREFIX_KEY);
    ScanUpTo(shown, Place(shown, SECRETS_MAP, literal), PREFIX_KEY);
    if c.provider.IsCloud() && w.secretEnv.Some? && w.secretEnv.value != [] { LongMapShown(c, w); }
  }

  lemma LongMapShown(c: Config, w: World)
    requires w.secretEnv.Some? && w.secretEnv.value != []
    ensures Shown(c, w) == Example(w)
  {
    hide Lines, FirstMatch;
  }

  lemma ScanUpTo(ls: seq<string>, at: nat, j: string)
    requires at <= |ls|
    ensures at < FirstMatch(ls, j) && Above(ls, j).Passed? ==> Scan(ls[..at], j).Passed?
  {
    hide FirstMatch, Scan;
    var p := FirstMatch(ls, j);
    if at < p {
      assert ls[..p] == ls[..at] + ls[at..p];
      ScanConcat(ls[..at], ls[at..p], j);
    }
  }

  lemma PrefixLeads(c: Config, w: World, b: string, rest: seq<Assignment>)
    requires IsMapKey(b)
    ensures Leader(EarlyLayers(c, w, "") + rest, b, PREFIX_KEY) == Some(PREFIX_KEY)
  {
    hide Leader, HeadLayer, ContractLayer, BundleLayer, SecretLayer, IsIdent;
    PrefixLeader(HeadLayer(c), "", ContractLayer(c, w) + BundleLayer(c) + SecretLayer(c, w), rest, b, PREFIX_KEY);
    HeadKeys(c);
    LeaderAmong(HeadLayer(c), b, PREFIX_KEY);
  }

  lemma {:induction false} LeaderAmong(edits: seq<Assignment>, b: string, j: string)
    ensures var leader := Leader(edits, b, j);
            leader.Some? ==> leader.value in {b, j} && exists e | e in edits :: e.0 == leader.value
  {
    if edits != [] { LeaderAmong(edits[..|edits| - 1], b, j); }
  }

  /** An override is read back as it was given if and only if a search gets to its key, or finds the same
      text above. */
  lemma OverrideSeen(c: Config, w: World, prefix: string, j: string, v: string)
    requires IsScalarKey(j) && IdentKeys(w.overrides) && EmptiesTidy(c, w)
    requires LastValue(w.overrides, j) == Some(v) && Plain(v)
    ensures Read(Layered(c, w, prefix), j) == Some(v) <==> Reach(c, w, j) == Passed || Reach(c, w, j) == Found(v)
  {
    hide Lines, IsIdent, Layered, Reach, EmptiesTidy, EarlyLayers, Plain, Read, Value, Quote;
    ReadLayered(c, w, prefix, j);
    LastValueConcat(EarlyLayers(c, w, prefix), w.overrides, j);
    ReadBackValue(v);
  }

  /** Seen in the example: a key that only overrides set gets its line at the end. A search gets there if
      and only if nothing in the example ends it, the environment map has no entries, and the operator
      secrets, if there are any, are neither in the example nor set by an earlier override. */
  lemma AbsentSeen(c: Config, w: World, j: string)
    requires IsScalarKey(j) && EmptiesTidy(c, w) && CanonLine(Lines(Example(w)), j) == None
    requires LastValue(EarlyLayers(c, w, ""), j) == None && LastValue(w.overrides, j).Some?
    ensures var shown := Lines(Shown(c, w));
            Reach(c, w, j).Passed? <==>
            Scan(shown, j).Passed? &&
            (c.provider.IsCloud() && w.secretEnv.Some? ==> w.secretEnv.value == []) &&
            (w.operatorSecrets.Some? && w.operatorSecrets.value != [] ==>
               Place(shown, SECRETS_MAP, LastValue(w.overrides, SECRETS_MAP) == None) == |shown| &&
               Leader(w.overrides, SECRETS_MAP, j) == Some(j))
  {
    hide Lines, FirstMatch, Place, Scan, EarlyLayers, Leader, TrimBoth, IsIdent, Settled, EmptiesMap, ReplaceMap;
    var ls, shown, literal := Lines(Example(w)), Lines(Shown(c, w)), LastValue(w.overrides, SECRETS_MAP) == None;
    AbsentShown(c, w, j);
    EarlyAvoidsMaps(c, w, "");
    LeaderUnset(EarlyLayers(c, w, ""), ENV_MAP, j);
    LeaderUnset(EarlyLayers(c, w, ""), SECRETS_MAP, j);
    LeaderConcat(EarlyLayers(c, w, ""), w.overrides, SECRETS_MAP, j);
    PlaceOf(ls, ls, ENV_MAP);
    ScanUpTo(ls, FirstMatch(ls, ENV_MAP), j);
    ScanUpTo(shown, Place(shown, SECRETS_MAP, literal), j);
    assert shown[..|shown|] == shown && ls[..|ls|] == ls;
    if c.provider.IsCloud() && w.secretEnv.Some? && w.secretEnv.value != [] { LongMapShown(c, w); }
  }

  lemma AbsentShown(c: Config, w: World, j: string)
    requires IsScalarKey(j) && EmptiesTidy(c, w) && CanonLine(Lines(Example(w)), j) == None
    ensures FirstMatch(Lines(Example(w)), j) == |Lines(Example(w))| &&
              FirstMatch(Lines(Shown(c, w)), j) == |Lines(Shown(c, w))|
  {
    hide Lines, ReplaceMap, IsIdent, TrimBoth, Matches, Tidy;
    MapKeys();
    if EmptiesMap(c, w) { CanonLineReplaceMap(Example(w), ENV_MAP, [], j); }
  }

  lemma {:induction false} LeaderUnset(edits: seq<Assignment>, b: string, j: string)
    requires LastValue(edits, b) == None && LastValue(edits, j) == None
    ensures Leader(edits, b, j) == None
  {
    if edits != [] { LeaderUnset(edits[..|edits| - 1], b, j); }
  }
}
