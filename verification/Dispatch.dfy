/** Which pack, flow and handler a deployment uses (src/deployment.rs, src/extension_sources.rs). */
module Dispatch {
  import opened Wrappers
  import opened Text
  import opened Contract

  datatype Target = Target(provider: string, strategy: string)

  datatype DeploymentDispatch = DeploymentDispatch(capability: Capability, packId: string, flowId: string,
      handlerId: string)

  datatype Config = Config(
    packOverride: Option<string>, flowOverride: Option<string>, providerPack: Option<string>)

  /** A directory that is searched for packs, with the candidates found in it, in order. */
  datatype SearchPath = SearchPath(name: string, candidates: seq<string>)

  /** The environment variables, the built-in table, and what is on disk: the manifests that load, the
      paths that exist, the direct candidates of the target and the search paths. */
  datatype World = World(
    env: map<string, string>, defaults: map<Target, DeploymentDispatch>,
    manifests: map<string, Manifest>, existing: set<string>,
    direct: seq<string>, searchPaths: seq<SearchPath>)

  datatype Line =
    | Overridden(actual: string, path: string, requested: string)
    | Examined(packId: string, path: string)
    | Chosen(capability: Capability, flowId: string)

  datatype Discovery = Discovery(packPath: string, manifest: Manifest, origin: string, candidates: seq<Line>)

  datatype Selection = Selection(dispatch: DeploymentDispatch, packPath: string, manifest: Manifest, origin: string,
      candidates: seq<Line>)

  datatype Error =
    | IncompleteOverride | IncompleteMapping(prefix: string) | NoMapping(target: Target)
    | Unloadable(path: string) | NoFlows(packId: string) | NotFound(packId: string)
    | BadContract(e: ContractError) | UndeclaredCapability(packId: string, capability: Capability)
    | FlowMissing(flowId: string)

  // ---------- where the default dispatch comes from ----------

  function ExplicitOverride(c: Config, capability: Capability): Result<Option<DeploymentDispatch>, Error> {
    match (c.packOverride, c.flowOverride)
    case (Some(p), Some(f)) => Ok(Some(DeploymentDispatch(capability, p, f, "override." + p)))
    case (None, None) => Ok(None)
    case _ => Err(IncompleteOverride)
  }

  function Load(w: World, path: string): Result<Manifest, Error> {
    if path in w.manifests then Ok(w.manifests[path]) else Err(Unloadable(path))
  }

  /** `resolve_pack_deployment_dispatch`: planner flow for planning, the declared flow otherwise, and
      the pack's first flow when the contract does not declare the capability or there is none. */
  function PackDispatch(w: World, path: string, capability: Capability): Result<DeploymentDispatch, Error> {
    match Load(w, path)
    case Err(e) => Err(e)
    case Ok(m) =>
      var first := if m.flows == [] then None else Some(m.flows[0]);
      var flow: Result<Option<string>, Error> :=
        match GetContract(m)
        case Err(e) => Err(BadContract(e))
        case Ok(None) => Ok(first)
        case Ok(Some(contract)) =>
          if capability == Plan then Ok(Some(contract.plannerFlow))
          else match FindCapability(contract.capabilities, capability)
               case Some(spec) => Ok(Some(spec.flowId))
               case None => Ok(first);
      match flow
      case Err(e) => Err(e)
      case Ok(None) => Err(NoFlows(m.packId))
      case Ok(Some(f)) => Ok(DeploymentDispatch(capability, m.packId, f, "pack." + m.packId))
  }

  function SanitizeChar(c: char): char {
    if 'a' <= c <= 'z' then (c as int - 32) as char else if IsAsciiAlphanumeric(c) then c else '_'
  }

  function SanitizeKey(s: string): (r: string)
    ensures |r| == |s|
  {
    if s == [] then [] else SanitizeKey(s[..|s| - 1]) + [SanitizeChar(s[|s| - 1])]
  }

  function GetEnv(w: World, key: string): Option<string> {
    if key in w.env then Some(w.env[key]) else None
  }

  function EnvOverrideWithPrefix(w: World, prefix: string): Result<Option<DeploymentDispatch>, Error> {
    match (GetEnv(w, prefix + "_PACK_ID"), GetEnv(w, prefix + "_FLOW_ID"))
    case (Some(p), Some(f)) => Ok(Some(DeploymentDispatch(Apply, p, f, "override." + LowerAll(prefix))))
    case (None, None) => Ok(None)
    case _ => Err(IncompleteMapping(prefix))
  }

  function ProviderPrefix(t: Target): string { "DEPLOY_TARGET_" + SanitizeKey(t.provider) }

  function StrategyPrefix(t: Target): string { ProviderPrefix(t) + "_" + SanitizeKey(t.strategy) }

  function EnvOverride(w: World, t: Target): Result<Option<DeploymentDispatch>, Error> {
    match EnvOverrideWithPrefix(w, StrategyPrefix(t))
    case Err(e) => Err(e)
    case Ok(Some(d)) => Ok(Some(d))
    case Ok(None) => EnvOverrideWithPrefix(w, ProviderPrefix(t))
  }

  function ResolveDispatch(w: World, t: Target): Result<DeploymentDispatch, Error> {
    match EnvOverride(w, t)
    case Err(e) => Err(e)
    case Ok(Some(d)) => Ok(d)
    case Ok(None) => if t in w.defaults then Ok(w.defaults[t]) else Err(NoMapping(t))
  }

  /** Explicit override, then provider pack, then environment and table. */
  function DefaultDispatch(c: Config, w: World, t: Target, capability: Capability): Result<DeploymentDispatch, Error> {
    match ExplicitOverride(c, capability)
    case Err(e) => Err(e)
    case Ok(Some(d)) => Ok(d)
    case Ok(None) =>
      match c.providerPack
      case Some(path) => PackDispatch(w, path, capability)
      case None => ResolveDispatch(w, t)
  }

  /** Variable names keep their letters, capitalised, and their digits; anything else is an underscore. */
  lemma {:induction false} SanitizedAt(s: string, i: nat)
    requires i < |s|
    ensures var r := SanitizeKey(s)[i];
            if IsAsciiAlphanumeric(s[i]) then ToLower(r) == ToLower(s[i]) && ('A' <= r <= 'Z' || '0' <= r <= '9')
            else r == '_'
  {
    hide IsAsciiAlphanumeric, SanitizeChar, ToLower;
    SanitizedChar(s[i]);
    if i < |s| - 1 { SanitizedAt(s[..|s| - 1], i); }
  }

  lemma SanitizedChar(c: char)
    ensures var r := SanitizeChar(c);
            if IsAsciiAlphanumeric(c) then ToLower(r) == ToLower(c) && ('A' <= r <= 'Z' || '0' <= r <= '9')
            else r == '_'
  {
  }

  /** Who wins when several are set: the caller's override, then the provider pack, then the variables of
      provider and strategy, then those of the provider, then the table. Half of a pair is an error, unless
      something before it was set. */
  lemma DispatchOrder(c: Config, w: World, t: Target, capability: Capability)
    ensures var p := "DEPLOY_TARGET_" + SanitizeKey(t.provider);
            var s := p + "_" + SanitizeKey(t.strategy);
            var r := DefaultDispatch(c, w, t, capability);
            if c.packOverride.Some? && c.flowOverride.Some? then
              r == Ok(DeploymentDispatch(capability, c.packOverride.value, c.flowOverride.value,
                                         "override." + c.packOverride.value))
            else if c.packOverride.Some? || c.flowOverride.Some? then r == Err(IncompleteOverride)
            else if c.providerPack.Some? then r == PackDispatch(w, c.providerPack.value, capability)
            else if s + "_PACK_ID" in w.env && s + "_FLOW_ID" in w.env then
              r == Ok(DeploymentDispatch(Apply, w.env[s + "_PACK_ID"], w.env[s + "_FLOW_ID"],
                                         "override." + LowerAll(s)))
            else if s + "_PACK_ID" in w.env || s + "_FLOW_ID" in w.env then r == Err(IncompleteMapping(s))
            else if p + "_PACK_ID" in w.env && p + "_FLOW_ID" in w.env then
              r == Ok(DeploymentDispatch(Apply, w.env[p + "_PACK_ID"], w.env[p + "_FLOW_ID"],
                                         "override." + LowerAll(p)))
            else if p + "_PACK_ID" in w.env || p + "_FLOW_ID" in w.env then r == Err(IncompleteMapping(p))
            else if t in w.defaults then r == Ok(w.defaults[t]) else r == Err(NoMapping(t))
  {
    hide SanitizeKey, PackDispatch;
  }

  // ---------- finding the pack ----------

  /** The first direct candidate that exists, if it also loads and is the wanted pack. */
  function DirectPack(w: World, packId: string): Option<string> {
    var i := First(w.direct, p => p in w.existing);
    if i < |w.direct| && w.direct[i] in w.manifests && w.manifests[w.direct[i]].packId == packId
    then Some(w.direct[i]) else None
  }

  /** All candidates in search order, each with the label of its search path. */
  function Flatten(paths: seq<SearchPath>): seq<(string, string)> {
    if paths == [] then []
    else Flatten(paths[..|paths| - 1]) + Labelled(paths[|paths| - 1].name, paths[|paths| - 1].candidates)
  }

  function Labelled(name: string, candidates: seq<string>): (r: seq<(string, string)>)
    ensures |r| == |candidates|
    ensures forall i | 0 <= i < |r| :: r[i] == (name, candidates[i])
  {
    if candidates == [] then []
    else Labelled(name, candidates[..|candidates| - 1]) + [(name, candidates[|candidates| - 1])]
  }

  predicate IsMatch(w: World, packId: string, c: (string, string)) {
    c.1 in w.manifests && w.manifests[c.1].packId == packId
  }

  /** One line for each candidate that loads. */
  function LoadableLines(w: World, cs: seq<(string, string)>): seq<Line> {
    if cs == [] then []
    else
      var n := |cs| - 1;
      LoadableLines(w, cs[..n]) +
      (if cs[n].1 in w.manifests then [Examined(w.manifests[cs[n].1].packId, cs[n].1)] else [])
  }

  function FirstPack(w: World, packId: string): (r: nat)
    ensures var all := Flatten(w.searchPaths);
            r <= |all| && (r < |all| ==> IsMatch(w, packId, all[r])) &&
            forall i | 0 <= i < r :: !IsMatch(w, packId, all[i])
  {
    First(Flatten(w.searchPaths), c => IsMatch(w, packId, c))
  }

  /** The search: the first loadable match in search order, with every loadable pack up to it. */
  function SearchPack(w: World, packId: string): Result<Discovery, Error> {
    var all, i := Flatten(w.searchPaths), FirstPack(w, packId);
    if i == |all| then Err(NotFound(packId))
    else Ok(Discovery(all[i].1, w.manifests[all[i].1], all[i].0, LoadableLines(w, all[..i + 1])))
  }

  method SearchPackForDispatch(w: World, packId: string) returns (r: Result<Discovery, Error>)
    ensures r == SearchPack(w, packId)
  {
    hide Flatten, First, LoadableLines;
    ghost var all := Flatten(w.searchPaths);
    var candidates: seq<Line> := [];
    ghost var done := 0;
    FlattenNothing(w.searchPaths);
    NoLines(w, all);
    for s := 0 to |w.searchPaths|
      invariant done == |Flatten(w.searchPaths[..s])| <= |all|
      invariant forall i | 0 <= i < done :: !IsMatch(w, packId, all[i])
      invariant candidates == LoadableLines(w, all[..done])
    {
      var search := w.searchPaths[s];
      FlattenStep(w.searchPaths, s);
      ghost var base := done;
      for j := 0 to |search.candidates|
        invariant done == base + j
        invariant forall i | 0 <= i < done :: !IsMatch(w, packId, all[i])
        invariant candidates == LoadableLines(w, all[..done])
      {
        var candidate := search.candidates[j];
        assert all[done] == (search.name, candidate);
        LinesStep(w, all, done);
        if candidate in w.manifests {
          var manifest := w.manifests[candidate];
          candidates := candidates + [Examined(manifest.packId, candidate)];
          if manifest.packId == packId {
            FirstPackIs(w, packId, done);
            return Ok(Discovery(candidate, manifest, search.name, candidates));
          }
        }
        done := done + 1;
      }
    }
    assert w.searchPaths[..|w.searchPaths|] == w.searchPaths;
    FirstPackIs(w, packId, done);
    r := Err(NotFound(packId));
  }

  lemma FirstPackIs(w: World, packId: string, n: nat)
    requires var all := Flatten(w.searchPaths);
             n <= |all| && (n < |all| ==> IsMatch(w, packId, all[n])) &&
             forall i | 0 <= i < n :: !IsMatch(w, packId, all[i])
    ensures FirstPack(w, packId) == n
  {
    hide Flatten, First, IsMatch, FirstPack;
    var r := FirstPack(w, packId);
    assert r <= |Flatten(w.searchPaths)|;
  }

  /** Flattening one more search path appends its labelled candidates. */
  lemma FlattenNext(paths: seq<SearchPath>, s: nat)
    requires s < |paths|
    ensures Flatten(paths[..s + 1]) == Flatten(paths[..s]) + Labelled(paths[s].name, paths[s].candidates)
  {
    hide Labelled;
    assert paths[..s + 1][..s] == paths[..s];
  }

  lemma {:induction false} FlattenFront(paths: seq<SearchPath>, n: nat)
    requires n <= |paths|
    ensures Flatten(paths[..n]) <= Flatten(paths)
    decreases |paths| - n
  {
    hide Flatten, Labelled;
    if n < |paths| {
      FlattenFront(paths, n + 1);
      FlattenNext(paths, n);
    } else {
      assert paths[..n] == paths;
    }
  }

  lemma FlattenStep(paths: seq<SearchPath>, s: nat)
    requires s < |paths|
    ensures var all, base, cs := Flatten(paths), |Flatten(paths[..s])|, paths[s].candidates;
            |Flatten(paths[..s + 1])| == base + |cs| <= |all| &&
            forall j | base <= j < base + |cs| :: all[j] == (paths[s].name, cs[j - base])
  {
    hide Flatten, Labelled;
    FlattenFront(paths, s + 1);
    FlattenNext(paths, s);
  }

  lemma FlattenNothing(paths: seq<SearchPath>)
    ensures Flatten(paths[..0]) == []
  {
  }

  lemma NoLines(w: World, cs: seq<(string, string)>)
    ensures LoadableLines(w, cs[..0]) == []
  {
  }

  lemma LinesStep(w: World, cs: seq<(string, string)>, n: nat)
    requires n < |cs|
    ensures LoadableLines(w, cs[..n + 1]) ==
            LoadableLines(w, cs[..n]) +
            (if cs[n].1 in w.manifests then [Examined(w.manifests[cs[n].1].packId, cs[n].1)] else [])
  {
    assert cs[..n + 1][..n] == cs[..n];
  }

  /** `find_pack_for_dispatch`: a provider pack is taken whatever its id is. */
  function FindPack(c: Config, w: World, d: DeploymentDispatch): Result<Discovery, Error> {
    match c.providerPack
    case Some(path) =>
      (match Load(w, path)
       case Err(e) => Err(e)
       case Ok(m) => Ok(Discovery(path, m, "override", [Overridden(m.packId, path, d.packId)])))
    case None =>
      match DirectPack(w, d.packId)
      case Some(path) => Ok(Discovery(path, w.manifests[path], "providers-dir", [Examined(d.packId, path)]))
      case None => SearchPack(w, d.packId)
  }

  // ---------- the contract has the last word ----------

  function ContractDispatch(m: Manifest, capability: Capability,
      fallback: DeploymentDispatch): Result<DeploymentDispatch, Error>
  {
    match GetContract(m)
    case Err(e) => Err(BadContract(e))
    case Ok(None) => Ok(fallback.(capability := capability))
    case Ok(Some(contract)) =>
      match FindCapability(contract.capabilities, capability)
      case None => Err(UndeclaredCapability(m.packId, capability))
      case Some(spec) => Ok(DeploymentDispatch(capability, m.packId, spec.flowId, fallback.handlerId))
  }

  /** `resolve_deployment_pack_for_capability` */
  function ResolvePack(c: Config, w: World, t: Target, capability: Capability): Result<Selection, Error> {
    match DefaultDispatch(c, w, t, capability)
    case Err(e) => Err(e)
    case Ok(d) =>
      match FindPack(c, w, d)
      case Err(e) => Err(e)
      case Ok(found) =>
        match ContractDispatch(found.manifest, capability, d)
        case Err(e) => Err(e)
        case Ok(dispatch) =>
          if dispatch.flowId !in found.manifest.flows then Err(FlowMissing(dispatch.flowId))
          else Ok(Selection(dispatch, found.packPath, found.manifest, found.origin,
                            found.candidates + [Chosen(dispatch.capability, dispatch.flowId)]))
  }

  // ---------- what success guarantees ----------

  /** The pack's contract dominates: a successful resolution is for the requested capability, with a flow
      the selected pack has; and if the pack has a contract, pack id and flow are the contract's own,
      whatever supplied the default. */
  lemma ContractDominates(c: Config, w: World, t: Target, capability: Capability)
    requires ResolvePack(c, w, t, capability).Ok?
    ensures var s := ResolvePack(c, w, t, capability).value;
            s.dispatch.capability == capability && s.dispatch.flowId in s.manifest.flows &&
            GetContract(s.manifest).Ok? &&
            (GetContract(s.manifest).value.Some? ==>
               IsValid(GetContract(s.manifest).value.value) &&
               CapabilitySpec(capability, s.dispatch.flowId) in GetContract(s.manifest).value.value.capabilities &&
               s.dispatch.packId == s.manifest.packId)
  {
    hide DefaultDispatch, FindPack, IsValid, Fault;
    var s := ResolvePack(c, w, t, capability).value;
    FoundIsValid(s.manifest);
    if GetContract(s.manifest).value.Some? {
      var contract := GetContract(s.manifest).value.value;
      DeclaredFlow(contract, capability);
    }
  }

  lemma DeclaredFlow(contract: DeployerContract, capability: Capability)
    ensures match FindCapability(contract.capabilities, capability)
            case Some(spec) => spec in contract.capabilities && spec == CapabilitySpec(capability, spec.flowId)
            case None => forall s | s in contract.capabilities :: s.capability != capability
  {
    FoundCapability(contract.capabilities, capability);
  }

  lemma {:induction false} FoundCapability(cs: seq<CapabilitySpec>, capability: Capability)
    ensures match FindCapability(cs, capability)
            case Some(spec) => spec in cs && spec.capability == capability
            case None => forall s | s in cs :: s.capability != capability
  {
    if cs != [] {
      FoundCapability(cs[1..], capability);
      assert cs == [cs[0]] + cs[1..];
    }
  }

  /** Two ways of configuring the same target that end at the same pack with a contract agree on pack id
      and flow, however different their defaults are. */
  lemma SamePackSameFlow(c1: Config, c2: Config, w1: World, w2: World, t1: Target, t2: Target, capability: Capability)
    requires ResolvePack(c1, w1, t1, capability).Ok? && ResolvePack(c2, w2, t2, capability).Ok?
    requires var m := ResolvePack(c1, w1, t1, capability).value.manifest;
             m == ResolvePack(c2, w2, t2, capability).value.manifest && GetContract(m).Ok? && GetContract(m).value.Some?
    ensures var d1 := ResolvePack(c1, w1, t1, capability).value.dispatch;
            var d2 := ResolvePack(c2, w2, t2, capability).value.dispatch;
            d1.packId == d2.packId && d1.flowId == d2.flowId
  {
    hide DefaultDispatch, FindPack, GetContract, FindCapability;
  }

  /** A pack whose contract does not declare the capability is never used for it, although the default
      may have fallen back to the pack's first flow. */
  lemma UndeclaredAlwaysFails(c: Config, w: World, t: Target, capability: Capability, path: string)
    requires c.providerPack == Some(path) && path in w.manifests
    requires GetContract(w.manifests[path]).Ok? && GetContract(w.manifests[path]).value.Some?
    requires forall s | s in GetContract(w.manifests[path]).value.value.capabilities :: s.capability != capability
    ensures ResolvePack(c, w, t, capability).Err?
  {
    hide DefaultDispatch, GetContract;
    FoundCapability(GetContract(w.manifests[path]).value.value.capabilities, capability);
  }

  /** What comes of a provider pack, exactly: its first flow if it has no contract, and else the flow its
      contract declares, so that the planner flow, which the default takes for planning, is never seen. */
  lemma ProviderPackResolved(c: Config, w: World, t: Target, capability: Capability, path: string)
    requires c.packOverride == None && c.flowOverride == None && c.providerPack == Some(path)
    ensures var r := ResolvePack(c, w, t, capability);
            if path !in w.manifests then r == Err(Unloadable(path))
            else
              var m := w.manifests[path];
              if GetContract(m).Err? then r == Err(BadContract(GetContract(m).error))
              else if GetContract(m).value == None then
                if m.flows == [] then r == Err(NoFlows(m.packId)) else IsSelected(r, capability, path, m, m.flows[0])
              else
                var spec := FindCapability(GetContract(m).value.value.capabilities, capability);
                if spec == None then
                  r == Err(if m.flows == [] then NoFlows(m.packId) else UndeclaredCapability(m.packId, capability))
                else if spec.value.flowId in m.flows then IsSelected(r, capability, path, m, spec.value.flowId)
                else r == Err(FlowMissing(spec.value.flowId))
  {
    hide GetContract, FindCapability, IsValid;
    if path in w.manifests && GetContract(w.manifests[path]).Ok? && GetContract(w.manifests[path]).value.Some? {
      FoundIsValid(w.manifests[path]);
      PlanIsDeclared(GetContract(w.manifests[path]).value.value);
    }
  }

  predicate IsSelected(r: Result<Selection, Error>, capability: Capability, path: string, m: Manifest, flow: string) {
    r.Ok? && r.value.packPath == path && r.value.manifest == m &&
    r.value.dispatch == DeploymentDispatch(capability, m.packId, flow, "pack." + m.packId)
  }

  lemma PlanIsDeclared(contract: DeployerContract)
    requires IsValid(contract)
    ensures FindCapability(contract.capabilities, Plan).Some?
  {
    hide FindCapability;
    FoundCapability(contract.capabilities, Plan);
  }

  /** The one way a selection can name another pack than the one it selected: both ids are overridden
      and a provider pack without a contract is given. */
  predicate IdsMayDiffer(c: Config, m: Manifest) {
    c.packOverride.Some? && c.flowOverride.Some? && c.providerPack.Some? &&
    GetContract(m) == Ok(None) && c.packOverride.value != m.packId
  }

  lemma SelectedIdentity(c: Config, w: World, t: Target, capability: Capability)
    requires ResolvePack(c, w, t, capability).Ok?
    ensures var s := ResolvePack(c, w, t, capability).value;
            s.dispatch.packId == s.manifest.packId <==> !IdsMayDiffer(c, s.manifest)
  {
    hide GetContract, ResolveDispatch, Flatten, FindCapability, LoadableLines;
    var d := DefaultDispatch(c, w, t, capability).value;
    var found := FindPack(c, w, d).value;
    FoundIdentity(c, w, d);
    if c.providerPack.Some? && ExplicitOverride(c, capability) == Ok(None) {
      PackDispatchIdentity(w, c.providerPack.value, capability);
    }
  }

  lemma FoundIdentity(c: Config, w: World, d: DeploymentDispatch)
    requires FindPack(c, w, d).Ok?
    ensures var found := FindPack(c, w, d).value;
            if c.providerPack.Some?
            then c.providerPack.value in w.manifests && found.manifest == w.manifests[c.providerPack.value]
            else found.manifest.packId == d.packId
  {
    hide Flatten, LoadableLines;
  }

  lemma PackDispatchIdentity(w: World, path: string, capability: Capability)
    requires PackDispatch(w, path, capability).Ok?
    ensures path in w.manifests && PackDispatch(w, path, capability).value.packId == w.manifests[path].packId
  {
  }

  /** The candidate lines of a search: one for every candidate that loads, and only for those. */
  lemma {:induction false} LinesAreLoadable(w: World, cs: seq<(string, string)>, l: Line)
    ensures l in LoadableLines(w, cs) <==>
            exists c | c in cs :: c.1 in w.manifests && l == Examined(w.manifests[c.1].packId, c.1)
  {
    if cs != [] {
      var n := |cs| - 1;
      LinesAreLoadable(w, cs[..n], l);
      assert cs == cs[..n] + [cs[n]];
    }
  }

  /** A direct candidate that is the wanted pack, and the first one that exists. */
  predicate IsDirect(w: World, packId: string, i: nat) {
    i < |w.direct| && w.direct[i] in w.existing && (forall n | 0 <= n < i :: w.direct[n] !in w.existing) &&
    w.direct[i] in w.manifests && w.manifests[w.direct[i]].packId == packId
  }

  /** Such a candidate is selected before anything is searched, and without one there is a search; the first
      candidate that exists hides the others, even if it is another pack or does not load. */
  lemma DirectSelection(c: Config, w: World, t: Target, capability: Capability)
    requires ResolvePack(c, w, t, capability).Ok? && c.providerPack == None
    ensures var s, packId := ResolvePack(c, w, t, capability).value, DefaultDispatch(c, w, t, capability).value.packId;
            (DirectPack(w, packId) == None <==> forall i: nat :: !IsDirect(w, packId, i)) &&
            forall i: nat | IsDirect(w, packId, i) ::
              s.packPath == w.direct[i] && s.origin == "providers-dir" && s.manifest == w.manifests[w.direct[i]] &&
              s.candidates == [Examined(packId, w.direct[i]), Chosen(capability, s.dispatch.flowId)]
  {
    hide GetContract, FindCapability, SearchPack, ResolveDispatch, ExplicitOverride, First;
    var packId := DefaultDispatch(c, w, t, capability).value.packId;
    var first := First(w.direct, p => p in w.existing);
    if first < |w.direct| && DirectPack(w, packId).Some? { assert IsDirect(w, packId, first); }
    forall i: nat | IsDirect(w, packId, i) ensures DirectPack(w, packId) == Some(w.direct[i]) {
      FirstIs(w.direct, p => p in w.existing, i);
    }
  }

  /** A selection found by searching is the first loadable match in search order; its lines are exactly
      the loadable packs up to it, and then the line for the chosen capability. */
  lemma SearchedSelection(c: Config, w: World, t: Target, capability: Capability)
    requires ResolvePack(c, w, t, capability).Ok? && c.providerPack == None
    requires DirectPack(w, DefaultDispatch(c, w, t, capability).value.packId) == None
    ensures var s, all := ResolvePack(c, w, t, capability).value, Flatten(w.searchPaths);
            var i := FirstPack(w, s.manifest.packId);
            i < |all| && s.packPath == all[i].1 && s.origin == all[i].0 && s.manifest == w.manifests[s.packPath] &&
            s.candidates == LoadableLines(w, all[..i + 1]) + [Chosen(capability, s.dispatch.flowId)] &&
            (forall n | 0 <= n < i && all[n].1 in w.manifests :: w.manifests[all[n].1].packId != s.manifest.packId)
  {
    hide GetContract, ResolveDispatch, Flatten, FindCapability, LoadableLines, ExplicitOverride, DirectPack, First,
      FirstPack;
  }
}
