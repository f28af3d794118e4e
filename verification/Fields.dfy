/** The written file field by field: which value of the configuration, the contract or the environment the
    first line of each variable carries, and what its two maps hold. */
module Fields {
  import opened Wrappers
  import opened Text
  import opened Tfvars
  import opened TfvarsScalar
  import opened TfvarsMap
  import opened TfvarsMapLaws
  import opened TfvarsReach
  import opened TfvarsMapReader
  import opened TfvarsEditor
  import opened Materialize
  import opened Reading
  import opened Layers

  /** What the configuration and the contract give a variable, from the last field written to the first. */
  function FieldOf(c: Config, w: World, prefix: string, k: string): Option<string> {
    var cloud := c.provider in {Aws, Azure, Gcp};
    if k == "runtime_secret_prefix" && cloud then
      Some("greentic/" + c.environment + "/" + c.tenant + "/" + w.secretTeam)
    else if k == "store_registry_base" && c.storeRegistryBase.Some? then c.storeRegistryBase
    else if k == "repo_registry_base" && c.repoRegistryBase.Some? then c.repoRegistryBase
    else if k == "bundle_digest" && c.bundleDigest.Some? then c.bundleDigest
    else if k == "bundle_s3_object_arn" && c.bundleSource.Some? && S3Arn(c.bundleSource.value).Some? then
      S3Arn(c.bundleSource.value)
    else if k == "bundle_source" && c.bundleSource.Some? then c.bundleSource
    else if k == "remote_state_backend" && cloud then
      Some(match c.provider case Aws => "s3" case Azure => "azurerm" case _ => "gcs")
    else if k == "operator_image_digest" && cloud then Some(IMAGE_DIGEST)
    else if k == "operator_image" && cloud then
      Some(if w.imageSource == Some("gcp-artifact-registry") || (w.imageSource != Some("ghcr") && c.provider.Gcp?)
           then GCP_IMAGE else GHCR_IMAGE)
    else if k == "gcp_region" && c.provider.Gcp? then Some("us-central1")
    else if k == "azure_location" && c.provider.Azure? then Some("westeurope")
    else if k == "deployment_name_prefix" then Some(prefix)
    else if k == "environment" then Some(c.environment)
    else if k == "tenant" then Some(c.tenant)
    else if k == "cloud" then Some(ProviderName(c.provider))
    else None
  }

  function ProviderName(p: Provider): string {
    match p
    case Local => "local" case Aws => "aws" case Azure => "azure"
    case Gcp => "gcp" case K8s => "k8s" case Generic => "generic"
  }

  lemma LastOfOne(key: string, value: string, k: string)
    ensures LastValue([(key, value)], k) == if k == key then Some(value) else None
  {
    assert [(key, value)][..0] == [];
  }

  lemma LastOptional(key: string, value: Option<string>, k: string)
    ensures LastValue(Optional(key, value), k) == if k == key then value else None
  {
    if value.Some? { LastOfOne(key, value.value, k); }
  }

  lemma HeadValue(c: Config, k: string)
    ensures LastValue(HeadLayer(c), k) ==
            if k == "environment" then Some(c.environment) else if k == "tenant" then Some(c.tenant)
            else if k == "cloud" then Some(ProviderName(c.provider)) else None
  {
    var cloud, tenant := [("cloud", c.provider.AsStr())], [("tenant", c.tenant)];
    var environment := [("environment", c.environment)];
    assert HeadLayer(c) == cloud + tenant + environment;
    hide LastValue;
    LastValueConcat(cloud + tenant, environment, k);
    LastValueConcat(cloud, tenant, k);
    LastOfOne("cloud", c.provider.AsStr(), k);
    LastOfOne("tenant", c.tenant, k);
    LastOfOne("environment", c.environment, k);
  }

  lemma ImagesValue(image: string, k: string)
    ensures LastValue([("operator_image", image), ("operator_image_digest", IMAGE_DIGEST)], k) ==
            if k == "operator_image_digest" then Some(IMAGE_DIGEST)
            else if k == "operator_image" then Some(image) else None
  {
    var a, b := [("operator_image", image)], [("operator_image_digest", IMAGE_DIGEST)];
    assert [("operator_image", image), ("operator_image_digest", IMAGE_DIGEST)] == a + b;
    hide LastValue, IMAGE_DIGEST;
    LastValueConcat(a, b, k);
    LastOfOne("operator_image", image, k);
    LastOfOne("operator_image_digest", IMAGE_DIGEST, k);
  }

  lemma ContractValue(c: Config, w: World, k: string)
    ensures LastValue(ContractLayer(c, w), k) ==
            if c.provider !in {Aws, Azure, Gcp} then None
            else if k == "remote_state_backend" then
              Some(match c.provider case Aws => "s3" case Azure => "azurerm" case _ => "gcs")
            else if k == "operator_image_digest" then Some(IMAGE_DIGEST)
            else if k == "operator_image" then Some(OperatorImage(c, w))
            else if k == "gcp_region" && c.provider.Gcp? then Some("us-central1")
            else if k == "azure_location" && c.provider.Azure? then Some("westeurope")
            else None
  {
    hide LastValue, OperatorImage;
    var images := [("operator_image", OperatorImage(c, w)), ("operator_image_digest", IMAGE_DIGEST)];
    ImagesValue(OperatorImage(c, w), k);
    NoneSet(k);
    match c.provider
    case Aws =>
      LastValueConcat(images, [("remote_state_backend", "s3")], k);
      LastOfOne("remote_state_backend", "s3", k);
    case Azure =>
      LastValueConcat([("azure_location", "westeurope")] + images, [("remote_state_backend", "azurerm")], k);
      LastValueConcat([("azure_location", "westeurope")], images, k);
      LastOfOne("azure_location", "westeurope", k);
      LastOfOne("remote_state_backend", "azurerm", k);
    case Gcp =>
      LastValueConcat([("gcp_region", "us-central1")] + images, [("remote_state_backend", "gcs")], k);
      LastValueConcat([("gcp_region", "us-central1")], images, k);
      LastOfOne("gcp_region", "us-central1", k);
      LastOfOne("remote_state_backend", "gcs", k);
    case _ =>
  }

  lemma NoneSet(k: string)
    ensures LastValue([], k) == None
  {
  }

  lemma BundleValue(c: Config, k: string)
    ensures LastValue(BundleLayer(c), k) ==
            if k == "store_registry_base" && c.storeRegistryBase.Some? then c.storeRegistryBase
            else if k == "repo_registry_base" && c.repoRegistryBase.Some? then c.repoRegistryBase
            else if k == "bundle_digest" && c.bundleDigest.Some? then c.bundleDigest
            else if k == "bundle_s3_object_arn" && c.bundleSource.Some? && S3Arn(c.bundleSource.value).Some? then
              S3Arn(c.bundleSource.value)
            else if k == "bundle_source" && c.bundleSource.Some? then c.bundleSource
            else None
  {
    hide LastValue, S3Arn, Optional;
    var arn := if c.bundleSource.Some? then Optional("bundle_s3_object_arn", S3Arn(c.bundleSource.value)) else [];
    var a := Optional("bundle_source", c.bundleSource);
    var d := Optional("bundle_digest", c.bundleDigest);
    var e := Optional("repo_registry_base", c.repoRegistryBase);
    var f := Optional("store_registry_base", c.storeRegistryBase);
    LastValueConcat(a + arn + d + e, f, k);
    LastValueConcat(a + arn + d, e, k);
    LastValueConcat(a + arn, d, k);
    LastValueConcat(a, arn, k);
    LastOptional("bundle_source", c.bundleSource, k);
    if c.bundleSource.Some? { LastOptional("bundle_s3_object_arn", S3Arn(c.bundleSource.value), k); }
    NoneSet(k);
    LastOptional("bundle_digest", c.bundleDigest, k);
    LastOptional("repo_registry_base", c.repoRegistryBase, k);
    LastOptional("store_registry_base", c.storeRegistryBase, k);
  }

  lemma SecretValue(c: Config, w: World, k: string)
    ensures LastValue(SecretLayer(c, w), k) ==
            if k == "runtime_secret_prefix" && c.provider in {Aws, Azure, Gcp}
            then Some("greentic/" + c.environment + "/" + c.tenant + "/" + w.secretTeam) else None
  {
    LastOfOne("runtime_secret_prefix", "greentic/" + c.environment + "/" + c.tenant + "/" + w.secretTeam, k);
  }

  /** The layers below the overrides give every variable the value of its field. */
  lemma EarlyValue(c: Config, w: World, prefix: string, k: string)
    ensures LastValue(EarlyLayers(c, w, prefix), k) == FieldOf(c, w, prefix, k)
  {
    hide LastValue, HeadLayer, ContractLayer, BundleLayer, SecretLayer, S3Arn;
    var own, contract, bundle, secret := [(PREFIX_KEY, prefix)], ContractLayer(c, w), BundleLayer(c), SecretLayer(c, w);
    LastValueConcat(HeadLayer(c) + own, contract + bundle + secret, k);
    LastValueConcat(HeadLayer(c), own, k);
    LastValueConcat(contract + bundle, secret, k);
    LastValueConcat(contract, bundle, k);
    HeadValue(c, k);
    LastOfOne(PREFIX_KEY, prefix, k);
    ContractValue(c, w, k);
    BundleValue(c, k);
    SecretValue(c, w, k);
  }

  /** The written file, field by field: the first line of every variable is the value of the last override
      that sets it, else of its field, else the line of the example; only the last step may set the public
      base URL once more. */
  lemma WrittenField(c: Config, w: World, existing: Option<string>, k: string)
    requires IdentKeys(w.overrides) && Neat(c, w) && IsScalarKey(k)
    requires Materialized(c, w, existing).Written?
    ensures var prefix := ResolvePrefix(c, w, existing);
            var dns, seen := Seen(c, w, prefix, DNS_KEY), Seen(c, w, prefix, URL_KEY);
            CanonLine(Lines(Materialized(c, w, existing).text), k) ==
            if k == "public_base_url" && dns.Some? && Trim(dns.value) != [] then
              Some(RenderScalar(k, "https://" + dns.value))
            else if k == "public_base_url" && seen.Some? && IsPlaceholder(seen.value) then Some(RenderScalar(k, ""))
            else
              match LastValue(w.overrides, k)
              case Some(v) => Some(RenderScalar(k, v))
              case None =>
                match FieldOf(c, w, prefix, k)
                case Some(v) => Some(RenderScalar(k, v))
                case None => CanonLine(Lines(Example(w)), k)
  {
    hide Lines, IsIdent, Neat, CanonLine, Materialized, ResolvePrefix, Seen, FieldOf, RenderScalar, EarlyLayers;
    hide IsPlaceholder, TrimBoth;
    var prefix := ResolvePrefix(c, w, existing);
    WrittenOverride(c, w, existing, k);
    EarlyValue(c, w, prefix, k);
    LastValueConcat(EarlyLayers(c, w, prefix), w.overrides, k);
  }

  // ---------- the maps ----------

  /** The last step leaves a map of another key where it is found. */
  lemma UrlKeepsMap(t: string, b: string, block: seq<string>, literal: bool)
    requires IsIdent(b) && b != URL_KEY && AllLines(block) && Holds(Lines(t), b, block, literal)
    requires forall k | IsIdent(k) && k != b :: NoneAssigns(block, k)
    ensures Holds(Lines(NormalizedUrl(t)), b, block, literal)
  {
    hide Lines, Replace, IsIdent, Read, UrlWritten, Holds, AllLines, NoneAssigns;
    ScalarKeys();
    var url := UrlWritten(Read(t, DNS_KEY), Read(t, URL_KEY));
    if url.Some? {
      RunOne(t, URL_KEY, url.value);
      LastOfOne(URL_KEY, url.value, b);
      HoldsRun(t, [(URL_KEY, url.value)], b, block, literal);
    }
  }

  lemma BlockEnd(b: string, m: Entries)
    requires IsIdent(b)
    ensures Block(b, m) != [] && Block(b, m)[|Block(b, m)| - 1] != ""
  {
    hide IsIdent, EntryLines, Header;
  }

  /** The secrets map of the text that the overrides leave is still tidy. */
  lemma TidyBeforeSecrets(c: Config, w: World, prefix: string)
    requires IdentKeys(w.overrides) && Neat(c, w) && WritesSecretsMap(w)
    ensures LitTidy(Lines(Run(WithEnvMap(c, w, Run(Example(w), EarlyLayers(c, w, prefix))), w.overrides)), SECRETS_MAP)
  {
    hide Lines, IsIdent, Run, ReplaceMap, EarlyLayers, LitTidy, Tidy, FirstMatch;
    var e, early := Example(w), EarlyLayers(c, w, prefix);
    MapKeys();
    EarlyAvoidsMaps(c, w, prefix);
    LitTidyRun(e, early, SECRETS_MAP);
    if WritesEnvMap(c, w) {
      SettledRun(e, early, ENV_MAP);
      LitTidyReplaceMap(Run(e, early), w.secretEnv.value);
    }
    LitTidyRun(WithEnvMap(c, w, Run(e, early)), w.overrides, SECRETS_MAP);
  }

  /** In the written file of a cloud deployment the runtime secrets can be read back, entry by entry, unless
      an override goes over the map. */
  lemma WrittenEnvMap(c: Config, w: World, existing: Option<string>)
    requires IdentKeys(w.overrides) && Neat(c, w) && LastValue(w.overrides, "runtime_secret_env") == None
    requires Materialized(c, w, existing).Written? && c.provider in {Aws, Azure, Gcp}
    ensures ReadMap(Materialized(c, w, existing).text, "runtime_secret_env", false) == w.secretEnv
  {
    hide Lines, IsIdent, Run, ReplaceMap, ReplaceLiteral, EarlyLayers, LitTidy, RenderMap, Neat, Block, Holds, AllLines;
    hide NoneAssigns, NormalizedUrl, ResolvePrefix, ReadMapAt, Place, LastValue, LongBlock;
    var prefix, m := ResolvePrefix(c, w, existing), w.secretEnv.value;
    var block := Block(ENV_MAP, m);
    MapKeys();
    ScalarKeys();
    MapAssignsOnly(ENV_MAP, m);
    BlockEnd(ENV_MAP, m);
    var t1 := Run(Example(w), EarlyLayers(c, w, prefix));
    MapHeld(t1, ENV_MAP, m);
    var t3 := Run(ReplaceMap(t1, ENV_MAP, m), w.overrides);
    HoldsRun(ReplaceMap(t1, ENV_MAP, m), w.overrides, ENV_MAP, block, false);
    if WritesSecretsMap(w) {
      TidyBeforeSecrets(c, w, prefix);
      HoldsLiteral(t3, SECRETS_MAP, w.operatorSecrets.value, ENV_MAP, block);
    }
    UrlKeepsMap(Layered(c, w, prefix), ENV_MAP, block, false);
    HeldMapReads(Lines(Materialized(c, w, existing).text), ENV_MAP, m, false);
  }

  /** The operator's secrets can be read back from every written file, if there are any. */
  lemma WrittenSecretsMap(c: Config, w: World, existing: Option<string>)
    requires Materialized(c, w, existing).Written?
    requires w.operatorSecrets.Some? && w.operatorSecrets.value != []
    ensures ReadMap(Materialized(c, w, existing).text, "secrets_map", true) == w.operatorSecrets
  {
    hide Lines, IsIdent, Run, ReplaceLiteral, WithEnvMap, EarlyLayers, RenderMap, LongBlock, Block, Holds, AllLines;
    hide NoneAssigns, NormalizedUrl, ResolvePrefix, ReadMapAt, Place;
    var prefix, m := ResolvePrefix(c, w, existing), w.operatorSecrets.value;
    MapKeys();
    ScalarKeys();
    MapAssignsOnly(SECRETS_MAP, m);
    LiteralHeld(Run(WithEnvMap(c, w, Run(Example(w), EarlyLayers(c, w, prefix))), w.overrides), SECRETS_MAP, m);
    UrlKeepsMap(Layered(c, w, prefix), SECRETS_MAP, LongBlock(SECRETS_MAP, m), true);
    HeldMapReads(Lines(Materialized(c, w, existing).text), SECRETS_MAP, m, true);
  }

  // ---------- each field under its name ----------

  /** Some names are told apart by their lengths, the others by one character. */
  lemma FieldNames()
    ensures |"cloud"| == 5 && |"tenant"| == 6 && |"environment"| == 11 && |"deployment_name_prefix"| == 22
    ensures |"bundle_source"| == 13 && |"bundle_digest"| == 13 && "bundle_source"[7] != "bundle_digest"[7]
    ensures |"repo_registry_base"| == 18 && |"store_registry_base"| == 19 && |"gcp_region"| == 10
    ensures |"operator_image"| == 14 && |"azure_location"| == 14 && "operator_image"[0] != "azure_location"[0]
    ensures |"remote_state_backend"| == 20 && |"bundle_s3_object_arn"| == 20
    ensures "remote_state_backend"[0] != "bundle_s3_object_arn"[0]
    ensures |"operator_image_digest"| == 21 && |"runtime_secret_prefix"| == 21
    ensures "operator_image_digest"[0] != "runtime_secret_prefix"[0]
  {
  }

  /** Fields that every run writes, each under its own name. */
  lemma IdentityFields(c: Config, w: World, prefix: string)
    ensures FieldOf(c, w, prefix, "cloud") == Some(ProviderName(c.provider))
    ensures FieldOf(c, w, prefix, "tenant") == Some(c.tenant)
    ensures FieldOf(c, w, prefix, "environment") == Some(c.environment)
    ensures FieldOf(c, w, prefix, "deployment_name_prefix") == Some(prefix)
  {
    hide S3Arn;
    FieldNames();
  }

  /** Fields of the bundle and the registries. */
  lemma BundleFields(c: Config, w: World, prefix: string)
    ensures FieldOf(c, w, prefix, "bundle_source") == c.bundleSource
    ensures FieldOf(c, w, prefix, "bundle_digest") == c.bundleDigest
    ensures FieldOf(c, w, prefix, "repo_registry_base") == c.repoRegistryBase
    ensures FieldOf(c, w, prefix, "store_registry_base") == c.storeRegistryBase
    ensures FieldOf(c, w, prefix, "bundle_s3_object_arn") ==
            if c.bundleSource.Some? then S3Arn(c.bundleSource.value) else None
  {
    hide S3Arn;
    FieldNames();
  }

  /** Fields that only a cloud provider gets. */
  lemma CloudFields(c: Config, w: World, prefix: string)
    ensures var cloud := c.provider in {Aws, Azure, Gcp};
            FieldOf(c, w, prefix, "runtime_secret_prefix") ==
              (if cloud then Some("greentic/" + c.environment + "/" + c.tenant + "/" + w.secretTeam) else None) &&
            FieldOf(c, w, prefix, "operator_image_digest") == (if cloud then Some(IMAGE_DIGEST) else None)
    ensures FieldOf(c, w, prefix, "remote_state_backend") ==
            match c.provider
            case Aws => Some("s3") case Azure => Some("azurerm") case Gcp => Some("gcs") case _ => None
    ensures FieldOf(c, w, prefix, "gcp_region") == if c.provider.Gcp? then Some("us-central1") else None
    ensures FieldOf(c, w, prefix, "azure_location") == if c.provider.Azure? then Some("westeurope") else None
  {
    hide S3Arn;
    FieldNames();
  }

  /** The image source picks the operator image for every cloud, if it is a known one; otherwise Google's
      own image is used on Google's cloud only. */
  lemma ImageField(c: Config, w: World, prefix: string)
    requires c.provider in {Aws, Azure, Gcp}
    ensures w.imageSource == Some("ghcr") ==> FieldOf(c, w, prefix, "operator_image") == Some(GHCR_IMAGE)
    ensures w.imageSource == Some("gcp-artifact-registry") ==>
              FieldOf(c, w, prefix, "operator_image") == Some(GCP_IMAGE)
    ensures w.imageSource !in {Some("ghcr"), Some("gcp-artifact-registry")} ==>
              FieldOf(c, w, prefix, "operator_image") == Some(if c.provider.Gcp? then GCP_IMAGE else GHCR_IMAGE)
  {
    hide S3Arn;
    FieldNames();
    assert |"ghcr"| == 4 && |"gcp-artifact-registry"| == 21;
  }

  // ---------- bundle addresses ----------

  /** The parts of an address in S3: its bucket, and its key without the slashes before it. */
  ghost predicate IsS3(source: string, bucket: string, slashes: string, key: string) {
    Trim(source) == "s3://" + bucket + "/" + slashes + key && bucket != [] && '/' !in bucket &&
    (forall x | x in slashes :: x == '/') && key != [] && key[0] != '/'
  }

  /** A bundle source has an ARN exactly if it is such an address, and it is made of its bucket and key. */
  lemma S3ArnOf(source: string, bucket: string, slashes: string, key: string)
    requires IsS3(source, bucket, slashes, key)
    ensures S3Arn(source) == Some("arn:aws:s3:::" + bucket + "/" + key)
  {
    hide TrimBoth, TrimLeft;
    var t, tail := Trim(source), slashes + key;
    var rest := t[5..];
    assert rest == bucket + "/" + tail;
    IndexOfIs(rest, '/', |bucket|);
    assert rest[..|bucket|] == bucket && rest[|bucket| + 1..] == tail;
    assert t[..5] == "s3://";
    forall i | 0 <= i < |slashes| ensures IsSlash(tail[i]) { assert tail[i] == slashes[i] && slashes[i] in slashes; }
    TrimLeftIs(tail, IsSlash, |slashes|);
    assert tail[|slashes|..] == key;
  }

  lemma S3ArnOnly(source: string) returns (bucket: string, slashes: string, key: string)
    ensures S3Arn(source).Some? ==> IsS3(source, bucket, slashes, key)
  {
    hide TrimBoth, IndexOf;
    bucket, slashes, key := [], [], [];
    if S3Arn(source).Some? {
      var t := Trim(source);
      var rest := t[5..];
      var i := IndexOf(rest, '/');
      bucket := rest[..i];
      slashes, key := SlashesOff(rest[i + 1..]);
      JoinS3(t, bucket, slashes, key);
    }
  }

  lemma SlashesOff(tail: string) returns (slashes: string, key: string)
    ensures tail == slashes + key && key == TrimLeft(tail, IsSlash) && (key != [] ==> key[0] != '/')
    ensures forall x | x in slashes :: x == '/'
  {
    hide TrimLeft;
    key := TrimLeft(tail, IsSlash);
    slashes := tail[..|tail| - |key|];
    forall x | x in slashes ensures x == '/' {
      var n :| 0 <= n < |slashes| && slashes[n] == x;
      assert IsSlash(tail[n]);
    }
  }

  lemma JoinS3(t: string, bucket: string, slashes: string, key: string)
    requires "s3://" <= t && |bucket| < |t| - 5
    requires t[5..][..|bucket|] == bucket && t[5..][|bucket|] == '/'
    requires t[5..][|bucket| + 1..] == slashes + key
    ensures t == "s3://" + bucket + "/" + slashes + key
  {
    Rejoin("s3://", bucket, "/", slashes, key);
    SplitAround(t[5..], |bucket|);
    assert t[..5] == "s3://" && t == t[..5] + t[5..];
  }

  lemma SplitAround(s: string, i: nat)
    requires i < |s|
    ensures s == s[..i] + ([s[i]] + s[i + 1..])
  {
  }

  lemma Rejoin(a: string, b: string, c: string, d: string, e: string)
    ensures a + (b + (c + (d + e))) == a + b + c + d + e
  {
  }

  // ---------- when a file is written ----------

  /** Nothing is written without a bundle or an override, or if a cloud's secrets cannot be resolved. */
  lemma WhenWritten(c: Config, w: World, existing: Option<string>)
    ensures var bare := c.bundleSource == None && c.bundleDigest == None && w.overrides == [];
            var unresolved := c.provider in {Aws, Azure, Gcp} && w.secretEnv == None;
            (Materialized(c, w, existing) == NotNeeded <==> bare) &&
            (Materialized(c, w, existing) == Failed <==> !bare && unresolved) &&
            (Materialized(c, w, existing).Written? <==> !bare && !unresolved)
  {
    hide ResolvePrefix, Layered, NormalizedUrl;
  }
}
