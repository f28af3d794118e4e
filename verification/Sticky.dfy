/** The deployment name prefix over whole runs: when the file written by one run makes the next run
    keep its prefix, and when it cannot. */
module Sticky {
  import opened Wrappers
  import opened Text
  import opened Json
  import opened Normalizer
  import opened Identity
  import opened Tfvars
  import opened TfvarsScalar
  import opened TfvarsEditor
  import opened Materialize
  import opened Reading
  import opened PublicUrl

  // ---------- which prefix a run picks ----------

  /** The prefix that all deployments of one provider, tenant and environment used to share. */
  function SharedPrefix(c: Config): string {
    GeneratedPrefix(c.provider.AsStr() + "\0" + c.tenant + "\0" + c.environment)
  }

  /** The prefix of one local identity among them. */
  function OwnPrefix(c: Config, w: World): string {
    GeneratedPrefix(c.provider.AsStr() + "\0" + c.tenant + "\0" + c.environment + "\0" + w.localIdentity)
  }

  /** The choice, exactly: a usable prefix of the caller wins; then the one in the file, unless it is blank or
      the shared one; and else the own one is generated. So without a prefix of the caller the shared one is
      used only by a deployment whose own prefix happens to be the same, and that has no other in its file. */
  lemma PrefixChoice(c: Config, w: World, existing: Option<string>)
    ensures var p := ResolvePrefix(c, w, existing);
            var read := if existing.Some? then Read(existing.value, PREFIX_KEY) else None;
            var keeps := read.Some? && Trim(read.value) != [] && read.value != SharedPrefix(c);
            if w.prefixVariable.Some? && Normalize(w.prefixVariable.value) != []
            then p == Normalize(w.prefixVariable.value)
            else
              p == (if keeps then read.value else OwnPrefix(c, w)) &&
              (p == SharedPrefix(c) <==> !keeps && OwnPrefix(c, w) == SharedPrefix(c))
  {
    hide Read, TrimBoth, Normalize, GeneratedPrefix;
    SharedIsLegacy(c);
    assert NUL == "\0";
  }

  lemma SharedIsLegacy(c: Config)
    ensures SharedPrefix(c) == Legacy(c)
  {
    hide GeneratedPrefix;
    assert NUL == "\0";
  }

  // ---------- one run ----------

  /** No override sets the prefix. */
  predicate OrdinaryKeys(w: World) {
    IdentKeys(w.overrides) && LastValue(w.overrides, PREFIX_KEY) == None
  }

  /** What the next run reads back from the file a run has written, and exactly when that is the prefix. */
  lemma PrefixReadBack(c: Config, w: World, prefix: string)
    requires OrdinaryKeys(w) && EmptiesTidy(c, w)
    ensures var reach, read := Reach(c, w, PREFIX_KEY), Read(NormalizedUrl(Layered(c, w, prefix)), PREFIX_KEY);
            read == (if reach.Passed? then Some(Value(" " + Quote(prefix))) else reach.ToOption()) &&
            (read == Some(prefix) <==> (reach == Passed && Plain(prefix)) || reach == Found(prefix))
  {
    hide Lines, IsIdent, Layered, NormalizedUrl, Value, Quote, Reach, EmptiesTidy, EarlyLayers, Plain, Read;
    ScalarKeys();
    UrlKeepsRead(Layered(c, w, prefix), PREFIX_KEY);
    ReadLayered(c, w, prefix, PREFIX_KEY);
    EarlyKeys(c, w, prefix);
    LastValueConcat(EarlyLayers(c, w, prefix), w.overrides, PREFIX_KEY);
    ReadBackValue(prefix);
  }

  // ---------- whole runs ----------

  type RunInput = (Config, World)

  predicate Writes(r: RunInput) { IsNeeded(r.0, r.1) && !Fails(r.0, r.1) }

  /** The output file after some runs: a run that writes nothing leaves it alone. */
  function FileAfter(start: Option<string>, runs: seq<RunInput>): Option<string> {
    if runs == [] then start
    else
      var n := |runs| - 1;
      var before := FileAfter(start, runs[..n]);
      match Materialized(runs[n].0, runs[n].1, before)
      case Written(text) => Some(text)
      case _ => before
  }

  /** The prefix that run i of some runs uses. */
  function PrefixAt(start: Option<string>, runs: seq<RunInput>, i: nat): string
    requires i < |runs|
  {
    ResolvePrefix(runs[i].0, runs[i].1, FileAfter(start, runs[..i]))
  }

  /** One provider, tenant and environment; user, workspace, bundle and registries may change. */
  predicate SameDeployment(runs: seq<RunInput>) {
    forall i | 0 <= i < |runs| ::
      runs[i].0.provider == runs[0].0.provider && runs[i].0.tenant == runs[0].0.tenant &&
      runs[i].0.environment == runs[0].0.environment
  }

  /** No run sets the prefix itself, and a map that a run empties is tidy in the example. */
  predicate GeneratesPrefix(r: RunInput) {
    ExplicitPrefix(r.1) == None && OrdinaryKeys(r.1) && EmptiesTidy(r.0, r.1)
  }

  /** A search gets to the prefix in the written file; `Reading.PrefixSeen` says what that means for the
      example and the two maps. */
  predicate PrefixVisible(r: RunInput) { Reach(r.0, r.1, PREFIX_KEY).Passed? }

  lemma GeneratedPrefixIsPlain(seed: string)
    ensures Plain(GeneratedPrefix(seed)) && Trim(GeneratedPrefix(seed)) != []
  {
    hide Hex, Hash, Utf8, TrimBoth;
    var h := Hex(Hash(Utf8(seed)), 8);
    var p := GeneratedPrefix(seed);
    forall c | c in p ensures !NeedsEscape(c) && c != '#' {
      if c !in h { assert c in NAME_PREFIX; }
    }
    assert p[0] == 'g' && h[7] in h;
    TrimBothAt(p, IsSpace, 0, |p|);
  }

  /** Runs of one deployment whose prefix can be read back; the first one writes. */
  predicate VisibleRuns(runs: seq<RunInput>) {
    runs != [] && SameDeployment(runs) && Writes(runs[0]) &&
    forall i | 0 <= i < |runs| :: GeneratesPrefix(runs[i]) && PrefixVisible(runs[i])
  }

  /** Whatever file there is at the start: if the prefix that the first run picks is kept and plain, every
      later run uses it too, and leaves it in the file. */
  lemma {:induction false} PrefixStays(start: Option<string>, runs: seq<RunInput>, i: nat)
    requires VisibleRuns(runs) && i < |runs|
    requires var p := PrefixAt(start, runs, 0); Plain(p) && Trim(p) != [] && p != SharedPrefix(runs[0].0)
    ensures PrefixAt(start, runs, i) == PrefixAt(start, runs, 0)
    ensures var file := FileAfter(start, runs[..i + 1]);
            file.Some? && Read(file.value, PREFIX_KEY) == Some(PrefixAt(start, runs, 0))
  {
    hide Stable, Legacy, SharedPrefix, Read, NormalizedUrl, Layered, Plain, TrimBoth, Value, Quote;
    hide OrdinaryKeys, Reach, EmptiesTidy;
    var c, w, p, before := runs[i].0, runs[i].1, PrefixAt(start, runs, 0), FileAfter(start, runs[..i]);
    SameLegacy(runs[0].0, c);
    SharedIsLegacy(runs[0].0);
    if i > 0 { PrefixStays(start, runs, i - 1); }
    assert runs[..i + 1][..i] == runs[..i];
    PrefixReadBack(c, w, p);
  }

  /** Sticky identity: starting without a file, if the first run's generated prefix is not the legacy one,
      every later run uses it too, whoever runs it and from wherever, and leaves it in the file. */
  lemma StickyPrefix(runs: seq<RunInput>, i: nat)
    requires VisibleRuns(runs) && i < |runs| && Stable(runs[0].0, runs[0].1) != SharedPrefix(runs[0].0)
    ensures PrefixAt(None, runs, i) == Stable(runs[0].0, runs[0].1)
    ensures var file := FileAfter(None, runs[..i + 1]);
            file.Some? && Read(file.value, PREFIX_KEY) == Some(Stable(runs[0].0, runs[0].1))
  {
    hide Stable, Legacy, SharedPrefix, Read, Plain, TrimBoth, OrdinaryKeys, Reach, EmptiesTidy, Materialized;
    StableIsKept(runs[0].0, runs[0].1);
    SharedIsLegacy(runs[0].0);
    PrefixStays(None, runs, i);
  }

  lemma StableIsKept(c: Config, w: World)
    ensures Plain(Stable(c, w)) && Trim(Stable(c, w)) != []
  {
    hide GeneratedPrefix;
    GeneratedPrefixIsPlain(LegacySeed(c.provider.AsStr(), c.tenant, c.environment) + NUL + w.localIdentity);
  }

  lemma SameLegacy(a: Config, b: Config)
    requires a.provider == b.provider && a.tenant == b.tenant && a.environment == b.environment
    ensures Legacy(a) == Legacy(b)
  {
  }

  /** The condition is exact: a run that would generate another prefix keeps the one of the run before if
      and only if that prefix is neither blank nor the legacy one, and the search in the file gets to it
      and nothing in it was escaped, or the search finds the same text above it. */
  lemma KeptExactly(a: RunInput, b: RunInput, existing: Option<string>)
    requires SameDeployment([a, b]) && Writes(a) && ExplicitPrefix(b.1) == None
    requires OrdinaryKeys(a.1) && EmptiesTidy(a.0, a.1)
    requires Stable(b.0, b.1) != ResolvePrefix(a.0, a.1, existing)
    ensures var p, file := ResolvePrefix(a.0, a.1, existing), Materialized(a.0, a.1, existing);
            var reach := Reach(a.0, a.1, PREFIX_KEY);
            file.Written? &&
            (ResolvePrefix(b.0, b.1, Some(file.text)) == p <==>
               Trim(p) != [] && p != SharedPrefix(a.0) && ((reach == Passed && Plain(p)) || reach == Found(p)))
  {
    hide Stable, Legacy, SharedPrefix, Read, NormalizedUrl, Layered, Plain, TrimBoth, Value, Quote, OrdinaryKeys, Reach;
    hide EmptiesTidy, ExplicitPrefix, Lines;
    var p := ResolvePrefix(a.0, a.1, existing);
    PrefixReadBack(a.0, a.1, p);
    assert [a, b][1] == b && [a, b][0] == a;
    SameLegacy(a.0, b.0);
    SharedIsLegacy(a.0);
  }

  // ---------- runs whose prefix is lost, or grows ----------

  /** If nothing can be read for the prefix in any written file, each run generates its own, as if there
      were no file. */
  lemma {:induction false} HiddenPrefixIsLost(runs: seq<RunInput>, i: nat)
    requires i < |runs|
    requires forall n | 0 <= n < |runs| ::
               GeneratesPrefix(runs[n]) && Reach(runs[n].0, runs[n].1, PREFIX_KEY).Stopped?
    ensures PrefixAt(None, runs, i) == Stable(runs[i].0, runs[i].1)
    ensures var file := FileAfter(None, runs[..i]); file.Some? ==> Read(file.value, PREFIX_KEY) == None
  {
    hide Stable, Legacy, SharedPrefix, Read, NormalizedUrl, Layered, OrdinaryKeys, Reach, EmptiesTidy, Value;
    hide Quote, Plain;
    if i > 0 {
      HiddenPrefixIsLost(runs, i - 1);
      assert runs[..i][..i - 1] == runs[..i - 1];
      PrefixReadBack(runs[i - 1].0, runs[i - 1].1, PrefixAt(None, runs, i - 1));
    }
  }

  function EscapedTimes(p: string, n: nat): string { if n == 0 then p else Escape(EscapedTimes(p, n - 1)) }

  /** A prefix that needs an escape, say one that someone wrote into the file with a backslash in it, is
      never the same for two runs: each run escapes what the run before wrote, so that it grows. */
  lemma {:induction false} EscapedPrefixGrows(start: string, runs: seq<RunInput>, p: string, i: nat)
    requires VisibleRuns(runs) && (forall n | 0 <= n < |runs| :: Writes(runs[n])) && i < |runs|
    requires Read(start, PREFIX_KEY) == Some(p) && !Plain(p) && Trim(p) != []
    ensures PrefixAt(Some(start), runs, i) == EscapedTimes(p, i)
    ensures IsReadable(EscapedTimes(p, i)) && !Plain(EscapedTimes(p, i)) && Trim(EscapedTimes(p, i)) != []
    ensures i > 0 ==> |PrefixAt(Some(start), runs, i)| > |PrefixAt(Some(start), runs, i - 1)|
  {
    hide Stable, Legacy, SharedPrefix, NormalizedUrl, Layered, Plain, TrimBoth, Value, Quote, OrdinaryKeys;
    hide Reach, EmptiesTidy;
    hide Lines, Scan, Escape, IsReadable;
    var c, w, q := runs[i].0, runs[i].1, EscapedTimes(p, i);
    LegacyIsPlain(c);
    if i == 0 {
      ScanIsReadable(Lines(start), PREFIX_KEY);
    } else {
      var before := EscapedTimes(p, i - 1);
      EscapedPrefixGrows(start, runs, p, i - 1);
      assert runs[..i][..i - 1] == runs[..i - 1];
      PrefixReadBack(runs[i - 1].0, runs[i - 1].1, before);
      EscapeGrows(before);
    }
  }

  lemma LegacyIsPlain(c: Config)
    ensures Plain(Legacy(c))
  {
    hide GeneratedPrefix;
    GeneratedPrefixIsPlain(LegacySeed(c.provider.AsStr(), c.tenant, c.environment));
  }
}
