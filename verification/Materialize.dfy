/** `materialize_generated_tfvars`: the run of edits that turns an example file into the generated
    tfvars file, and the deployment name prefix it picks (src/apply.rs). */
module Materialize {
  import opened Wrappers
  import opened Text
  import opened Normalizer
  import opened Identity
  import opened Tfvars
  import opened TfvarsScalar
  import opened TfvarsMap
  import opened TfvarsEditor

  datatype Provider = Local | Aws | Azure | Gcp | K8s | Generic {
    function AsStr(): string {
      match this
      case Local => "local" case Aws => "aws" case Azure => "azure"
      case Gcp => "gcp" case K8s => "k8s" case Generic => "generic"
    }

    predicate IsCloud() { Aws? || Azure? || Gcp? }
  }

  datatype Config = Config(
    provider: Provider, tenant: string, environment: string,
    bundleSource: Option<string>, bundleDigest: Option<string>,
    repoRegistryBase: Option<string>, storeRegistryBase: Option<string>)

  /** What a run reads besides its configuration and the file it wrote before. A run fails when the
      runtime secrets of a cloud deployment cannot be resolved (secretEnv is None). */
  datatype World = World(
    example: Option<string>, imageSource: Option<string>, overrides: seq<Assignment>,
    prefixVariable: Option<string>, localIdentity: string, secretTeam: string,
    secretEnv: Option<Entries>, operatorSecrets: Option<Entries>)

  datatype Generated = NotNeeded | Failed | Written(text: string)

  const PREFIX_KEY := "deployment_name_prefix"
  const ENV_MAP := "runtime_secret_env"
  const SECRETS_MAP := "secrets_map"

  // ---------- the prefix ----------

  /** A prefix set by the caller, normalised; unusable values count as unset. */
  function ExplicitPrefix(w: World): Option<string> {
    if w.prefixVariable.Some? && Normalize(w.prefixVariable.value) != []
    then Some(Normalize(w.prefixVariable.value)) else None
  }

  function Legacy(c: Config): string { LegacyPrefix(c.provider.AsStr(), c.tenant, c.environment) }

  function Stable(c: Config, w: World): string {
    StablePrefix(c.provider.AsStr(), c.tenant, c.environment, w.localIdentity)
  }

  /** A prefix read back from the file of an earlier run is kept, unless blank or the legacy one. */
  predicate Kept(c: Config, value: string) { Trim(value) != [] && value != Legacy(c) }

  /** `resolve_terraform_deployment_name_prefix` */
  function ResolvePrefix(c: Config, w: World, existing: Option<string>): string {
    if ExplicitPrefix(w).Some? then ExplicitPrefix(w).value
    else
      var previous := if existing.Some? then Read(existing.value, PREFIX_KEY) else None;
      if previous.Some? && Kept(c, previous.value) then previous.value else Stable(c, w)
  }

  // ---------- the layers ----------

  /** `aws_bundle_s3_object_arn` */
  function S3Arn(source: string): Option<string> {
    var t := Trim(source);
    if !StartsWith(t, "s3://") then None
    else
      var rest := t[5..];
      var i := IndexOf(rest, '/');
      if i == |rest| then None
      else
        var bucket, key := rest[..i], TrimLeft(rest[i + 1..], IsSlash);
        if bucket == [] || key == [] then None else Some("arn:aws:s3:::" + bucket + "/" + key)
  }

  function Optional(key: string, value: Option<string>): seq<Assignment> {
    if value.Some? then [(key, value.value)] else []
  }

  function HeadLayer(c: Config): seq<Assignment> {
    [("cloud", c.provider.AsStr()), ("tenant", c.tenant), ("environment", c.environment)]
  }

  const GHCR_IMAGE := "ghcr.io/greenticai/greentic-start-distroless@" + IMAGE_DIGEST
  const GCP_IMAGE :=
    "europe-west1-docker.pkg.dev/x-plateau-483512-p6/greentic-images/greentic-start-distroless@" +
    "sha256:5f7e4b70271c09b2a099e2c6d5c8641cbdb5a20698dcbba0e3b0f90a0f3e0e48"
  const IMAGE_DIGEST := "sha256:91ee172e104cebbd263ee85cafdad54f453b08b9c78b4c60fd4f14a061a6ed7a"

  /** `operator_image_default_for_provider` */
  function OperatorImage(c: Config, w: World): string {
    if w.imageSource == Some("gcp-artifact-registry") then GCP_IMAGE
    else if w.imageSource == Some("ghcr") then GHCR_IMAGE
    else if c.provider.Gcp? then GCP_IMAGE else GHCR_IMAGE
  }

  /** `terraform_contract_default_overrides`: the defaults of the cloud's requirements, sorted by key. */
  function ContractLayer(c: Config, w: World): seq<Assignment> {
    var images := [("operator_image", OperatorImage(c, w)), ("operator_image_digest", IMAGE_DIGEST)];
    match c.provider
    case Aws => images + [("remote_state_backend", "s3")]
    case Azure => [("azure_location", "westeurope")] + images + [("remote_state_backend", "azurerm")]
    case Gcp => [("gcp_region", "us-central1")] + images + [("remote_state_backend", "gcs")]
    case _ => []
  }

  function BundleLayer(c: Config): seq<Assignment> {
    Optional("bundle_source", c.bundleSource) +
    (if c.bundleSource.Some? then Optional("bundle_s3_object_arn", S3Arn(c.bundleSource.value)) else []) +
    Optional("bundle_digest", c.bundleDigest) +
    Optional("repo_registry_base", c.repoRegistryBase) +
    Optional("store_registry_base", c.storeRegistryBase)
  }

  function SecretLayer(c: Config, w: World): seq<Assignment> {
    if c.provider.IsCloud()
    then [("runtime_secret_prefix", "greentic/" + c.environment + "/" + c.tenant + "/" + w.secretTeam)]
    else []
  }

  /** Every scalar edit that comes before the runtime secret map. */
  function EarlyLayers(c: Config, w: World, prefix: string): seq<Assignment> {
    HeadLayer(c) + [(PREFIX_KEY, prefix)] + (ContractLayer(c, w) + BundleLayer(c) + SecretLayer(c, w))
  }

  function WithEnvMap(c: Config, w: World, text: string): string {
    if c.provider.IsCloud() && w.secretEnv.Some? then ReplaceMap(text, ENV_MAP, w.secretEnv.value) else text
  }

  function WithSecretsMap(w: World, text: string): string {
    if w.operatorSecrets.Some? && w.operatorSecrets.value != []
    then ReplaceLiteral(text, SECRETS_MAP, RenderMap(w.operatorSecrets.value)) else text
  }

  /** All scalar edits of a run, lowest layer first: cloud, tenant, environment and prefix, contract
      defaults, bundle and registry fields, the runtime secret prefix, and the environment overrides. */
  function AllLayers(c: Config, w: World, prefix: string): seq<Assignment> {
    EarlyLayers(c, w, prefix) + w.overrides
  }

  function Example(w: World): string { if w.example.Some? then w.example.value else "" }

  /** The text after all layers, before the public base URL is looked at. */
  function Layered(c: Config, w: World, prefix: string): string {
    WithSecretsMap(w, Run(WithEnvMap(c, w, Run(Example(w), EarlyLayers(c, w, prefix))), w.overrides))
  }

  predicate IsNeeded(c: Config, w: World) {
    c.bundleSource.Some? || c.bundleDigest.Some? || w.overrides != []
  }

  predicate Fails(c: Config, w: World) { c.provider.IsCloud() && w.secretEnv == None }

  function Materialized(c: Config, w: World, existing: Option<string>): Generated {
    if !IsNeeded(c, w) then NotNeeded
    else if Fails(c, w) then Failed
    else Written(NormalizedUrl(Layered(c, w, ResolvePrefix(c, w, existing))))
  }

  lemma {:induction false} RunConcat(c: string, a: seq<Assignment>, b: seq<Assignment>)
    ensures Run(c, a + b) == Run(Run(c, a), b)
  {
    hide Replace;
    if b == [] {
      assert a + b == a;
    } else {
      assert (a + b)[..|a + b| - 1] == a + b[..|b| - 1];
      RunConcat(c, a, b[..|b| - 1]);
    }
  }

  lemma RunOne(c: string, k: string, v: string)
    ensures Run(c, [(k, v)]) == Replace(c, k, v)
  {
    hide Replace;
    assert [(k, v)][..0] == [];
  }

  /** `for (key, value) in layer { replace_tfvars_assignment(..) }` */
  method ApplyLayer(text: TfvarsText, layer: seq<Assignment>)
    modifies text
    ensures text.contents == Run(old(text.contents), layer)
  {
    hide Replace;
    for i := 0 to |layer|
      invariant text.contents == Run(old(text.contents), layer[..i])
    {
      assert layer[..i + 1][..i] == layer[..i];
      text.ReplaceAssignment(layer[i].0, layer[i].1);
    }
    assert layer[..|layer|] == layer;
  }

  method ApplyOptional(text: TfvarsText, key: string, value: Option<string>)
    modifies text
    ensures text.contents == Run(old(text.contents), Optional(key, value))
  {
    hide Replace;
    if value.Some? {
      text.ReplaceAssignment(key, value.value);
      RunOne(old(text.contents), key, value.value);
    }
  }

  method ApplyBundleLayer(text: TfvarsText, c: Config)
    modifies text
    ensures text.contents == Run(old(text.contents), BundleLayer(c))
  {
    hide Run, S3Arn;
    ghost var start := text.contents;
    ghost var arn := if c.bundleSource.Some? then Optional("bundle_s3_object_arn", S3Arn(c.bundleSource.value)) else [];
    ApplyOptional(text, "bundle_source", c.bundleSource);
    if c.bundleSource.Some? {
      ApplyOptional(text, "bundle_s3_object_arn", S3Arn(c.bundleSource.value));
    } else {
      RunConcat(text.contents, [], []);
      RunNothing(text.contents);
    }
    RunConcat(start, Optional("bundle_source", c.bundleSource), arn);
    ghost var done := Optional("bundle_source", c.bundleSource) + arn;
    ApplyOptional(text, "bundle_digest", c.bundleDigest);
    RunConcat(start, done, Optional("bundle_digest", c.bundleDigest));
    done := done + Optional("bundle_digest", c.bundleDigest);
    ApplyOptional(text, "repo_registry_base", c.repoRegistryBase);
    RunConcat(start, done, Optional("repo_registry_base", c.repoRegistryBase));
    done := done + Optional("repo_registry_base", c.repoRegistryBase);
    ApplyOptional(text, "store_registry_base", c.storeRegistryBase);
    RunConcat(start, done, Optional("store_registry_base", c.storeRegistryBase));
  }

  lemma RunNothing(c: string)
    ensures Run(c, []) == c
  {
  }

  /** The scalar edits before the runtime secret map, in order. */
  method ApplyEarlyLayers(text: TfvarsText, c: Config, w: World, existing: Option<string>)
    modifies text
    ensures text.contents == Run(old(text.contents), EarlyLayers(c, w, ResolvePrefix(c, w, existing)))
  {
    hide Run, Replace, ResolvePrefix, BundleLayer, ContractLayer;
    ghost var start := text.contents;
    ApplyLayer(text, HeadLayer(c));
    var prefix := ResolvePrefix(c, w, existing);
    text.ReplaceAssignment(PREFIX_KEY, prefix);
    ghost var done := HeadLayer(c) + [(PREFIX_KEY, prefix)];
    RunConcat(start, HeadLayer(c), [(PREFIX_KEY, prefix)]);
    RunOne(Run(start, HeadLayer(c)), PREFIX_KEY, prefix);
    ApplyLayer(text, ContractLayer(c, w));
    ApplyBundleLayer(text, c);
    RunConcat(Run(start, done), ContractLayer(c, w), BundleLayer(c));
    if c.provider.IsCloud() {
      ApplyLayer(text, SecretLayer(c, w));
    } else {
      RunNothing(text.contents);
    }
    RunConcat(Run(start, done), ContractLayer(c, w) + BundleLayer(c), SecretLayer(c, w));
    RunConcat(start, done, ContractLayer(c, w) + BundleLayer(c) + SecretLayer(c, w));
  }

  /** `materialize_generated_tfvars`, with the text that is written to the output file. */
  method MaterializeGeneratedTfvars(c: Config, w: World, existing: Option<string>) returns (outcome: Generated)
    ensures outcome == Materialized(c, w, existing)
  {
    hide Run, Replace, ReplaceMap, ReplaceLiteral, NormalizedUrl, ResolvePrefix, EarlyLayers, RenderMap;
    if c.bundleSource.None? && c.bundleDigest.None? && w.overrides == [] {
      return NotNeeded;
    }
    var text := new TfvarsText(if w.example.Some? then w.example.value else "");
    ApplyEarlyLayers(text, c, w, existing);
    if c.provider.IsCloud() {
      if w.secretEnv.None? {
        return Failed;
      }
      text.ReplaceMapAssignment(ENV_MAP, w.secretEnv.value);
    }
    ApplyLayer(text, w.overrides);
    ApplyOperatorSecrets(text, w.operatorSecrets);
    text.NormalizePublicBaseUrl();
    outcome := Written(text.contents);
  }

  /** `apply_operator_secrets_map_tfvar` */
  method ApplyOperatorSecrets(text: TfvarsText, secrets: Option<Entries>)
    modifies text
    ensures text.contents ==
            if secrets.Some? && secrets.value != []
            then ReplaceLiteral(old(text.contents), SECRETS_MAP, RenderMap(secrets.value)) else old(text.contents)
  {
    hide ReplaceLiteral, RenderMap;
    if secrets.None? || secrets.value == [] {
      return;
    }
    var rendered := RenderTerraformMap(secrets.value);
    text.ReplaceAssignmentLiteral(SECRETS_MAP, rendered);
  }
}
