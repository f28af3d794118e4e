/** The verdict on an environment-relative pack ref and the scan for stale revisions (src/pack_ref.rs). */
module PackRef {
  import opened Wrappers
  import opened Paths

  datatype Reason =
    | EmptyRef | NotRelative | NoEnvironment
    | Unreadable(e: IoError) | NotAFile(at: Place) | Rejected(n: NormalizeError)

  datatype PackRefStatus = Resolved(canon: Place) | Missing(joined: seq<Component>) | Invalid(why: Reason)

  function ClassifyPackRef(fs: FileSystem, envDir: seq<Component>, rel: Path): PackRefStatus {
    if !rel.absolute && rel.components == [] then Invalid(EmptyRef)
    else if rel.absolute || ParentDir in rel.components then Invalid(NotRelative)
    else
      match Canonicalize(fs, envDir)
      case Err(_) => Invalid(NoEnvironment)
      case Ok(envCanon) =>
        var joined := Normals(envCanon) + rel.components;
        match Lstat(fs, joined)
        case Err(NotFound) => Missing(joined)
        case Err(e) => Invalid(Unreadable(e))
        case Ok(_) =>
          match NormalizeUnderRoot(fs, envDir, rel)
          case Ok(canon) => if NodeAt(fs, canon) == Some(File) then Resolved(canon) else Invalid(NotAFile(canon))
          case Err(e) => Invalid(Rejected(e))
  }

  predicate IsPlainRef(rel: Path) { !rel.absolute && rel.components != [] && ParentDir !in rel.components }

  /** A verdict other than a violation is always about a plain relative ref and a place below the
      environment directory, whatever links the file system holds: a resolved ref is a regular file there,
      reached at a place with no links on it, and a missing one does not exist. So an empty, absolute or
      climbing ref is never taken for a stale record. Both verdicts are exact: a link that leads nowhere is
      there, so it is no missing ref, and one that leads to a file below the directory is resolved. */
  lemma VerdictsAreContained(fs: FileSystem, envDir: seq<Component>, rel: Path)
    ensures var verdict, env := ClassifyPackRef(fs, envDir, rel), Canonicalize(fs, envDir);
            (!verdict.Invalid? ==> env.Ok? && IsPlainRef(rel)) &&
            (verdict.Missing? <==>
               IsPlainRef(rel) && env.Ok? && Lstat(fs, Normals(env.value) + rel.components) == Err(NotFound)) &&
            (verdict.Resolved? <==>
               IsPlainRef(rel) && env.Ok? && Lstat(fs, Normals(env.value) + rel.components).Ok? &&
               exists canon :: NormalizeUnderRoot(fs, envDir, rel) == Ok(canon) && NodeAt(fs, canon) == Some(File)) &&
            match verdict
            case Resolved(canon) => env.value <= canon && IsCanonical(fs, canon) && NodeAt(fs, canon) == Some(File)
            case Missing(joined) => joined == Normals(env.value) + rel.components && Lstat(fs, joined) == Err(NotFound)
            case Invalid(_) => true
  {
    hide Resolve, Lstat, IsCanonical;
    NormalizedIsContained(fs, envDir, rel);
  }

  // ---------- trees without links ----------

  predicate LinkFree(fs: FileSystem) { forall p | p in fs :: !fs[p].Link? }

  /** The names a ref without `..` goes through. */
  function Names(cs: seq<Component>): Place {
    if cs == [] then []
    else if cs[|cs| - 1].Normal? then Names(cs[..|cs| - 1]) + [cs[|cs| - 1].name]
    else Names(cs[..|cs| - 1])
  }

  /** Some directory on the way down lacks the next name. */
  ghost predicate CutOff(fs: FileSystem, at: Place, names: Place) {
    exists i | 0 <= i < |names| ::
      NodeAt(fs, at + names[..i]) == Some(Dir) && NodeAt(fs, at + names[..i + 1]) == None
  }

  lemma {:induction false} ResolveConcat(fs: FileSystem, at: Place, a: seq<Component>, b: seq<Component>, links: nat)
    requires LinkFree(fs)
    ensures var r := Resolve(fs, at, a, links);
            Resolve(fs, at, a + b, links) == if r.Ok? then Resolve(fs, r.value, b, links) else r
    decreases |a|
  {
    if a == [] {
      assert a + b == b;
    } else {
      assert (a + b)[1..] == a[1..] + b && (a + b)[0] == a[0];
      if NodeAt(fs, at) == Some(Dir) {
        match a[0]
        case CurDir => ResolveConcat(fs, at, a[1..], b, links);
        case ParentDir => ResolveConcat(fs, Parent(at), a[1..], b, links);
        case Normal(n) =>
          if NodeAt(fs, at + [n]).Some? { ResolveConcat(fs, at + [n], a[1..], b, links); }
      }
    }
  }

  lemma ResolveOne(fs: FileSystem, at: Place, c: Component, links: nat)
    requires LinkFree(fs)
    ensures Resolve(fs, at, [c], links) ==
            if NodeAt(fs, at) != Some(Dir) then Err(NotADirectory)
            else match c
                 case CurDir => Ok(at)
                 case ParentDir => Ok(Parent(at))
                 case Normal(n) => if NodeAt(fs, at + [n]) == None then Err(NotFound) else Ok(at + [n])
  {
    assert [c][1..] == [];
  }

  lemma CutOffStep(fs: FileSystem, at: Place, names: Place, n: string)
    ensures CutOff(fs, at, names + [n]) <==>
            CutOff(fs, at, names) || (NodeAt(fs, at + names) == Some(Dir) && NodeAt(fs, at + names + [n]) == None)
  {
    var all := names + [n];
    assert forall i | 0 <= i <= |names| :: all[..i] == names[..i];
    assert names[..|names|] == names && all[..|names| + 1] == all;
    assert at + (names + [n]) == at + names + [n];
    if CutOff(fs, at, names) {
      var i :| 0 <= i < |names| && NodeAt(fs, at + names[..i]) == Some(Dir) && NodeAt(fs, at + names[..i + 1]) == None;
      assert NodeAt(fs, at + all[..i]) == Some(Dir) && NodeAt(fs, at + all[..i + 1]) == None;
    }
    if NodeAt(fs, at + names) == Some(Dir) && NodeAt(fs, at + names + [n]) == None {
      assert NodeAt(fs, at + all[..|names|]) == Some(Dir) && NodeAt(fs, at + all[..|names| + 1]) == None;
    }
  }

  /** In a tree without links a path is resolved by its names alone: it fails as missing exactly when
      it is cut off, and otherwise either ends where its names say or is blocked by a file. */
  lemma {:induction false} ResolveByNames(fs: FileSystem, at: Place, cs: seq<Component>, links: nat)
    requires WellFormed(fs) && LinkFree(fs) && ParentDir !in cs && NodeAt(fs, at).Some?
    ensures var r, target := Resolve(fs, at, cs, links), at + Names(cs);
            (r == Err(NotFound) <==> CutOff(fs, at, Names(cs))) &&
            (r.Ok? ==> r == Ok(target) && NodeAt(fs, target).Some?) &&
            (r.Err? ==> r == Err(NotFound) || r == Err(NotADirectory)) &&
            (r == Err(NotADirectory) ==> NodeAt(fs, target) != Some(Dir))
    decreases |cs|
  {
    hide Resolve, CutOff, WellFormed, LinkFree;
    if cs == [] {
      assert at + [] == at;
      NothingCutOff(fs, at);
      ResolveNothing(fs, at, links);
    } else {
      var n := |cs| - 1;
      var init, last := cs[..n], cs[n];
      assert cs == init + [last];
      ResolveByNames(fs, at, init, links);
      ResolveConcat(fs, at, init, [last], links);
      var t := at + Names(init);
      ResolveOne(fs, t, last, links);
      if last.Normal? {
        CutOffStep(fs, at, Names(init), last.name);
        assert at + (Names(init) + [last.name]) == t + [last.name];
        if NodeAt(fs, t) != Some(Dir) { ChildNeedsDirectory(fs, t, last.name); }
      }
    }
  }

  lemma NothingCutOff(fs: FileSystem, at: Place)
    ensures !CutOff(fs, at, [])
  {
  }

  lemma ResolveNothing(fs: FileSystem, at: Place, links: nat)
    ensures Resolve(fs, at, [], links) == Ok(at)
  {
  }

  lemma ChildNeedsDirectory(fs: FileSystem, p: Place, n: string)
    requires WellFormed(fs) && NodeAt(fs, p) != Some(Dir)
    ensures NodeAt(fs, p + [n]) == None
  {
    assert (p + [n])[..|p + [n]| - 1] == p;
  }

  /** The three verdicts in a tree without links, from names and nodes alone. A ref that ends in `.` is
      never a file; a ref that runs through or stops at anything but its own regular file is invalid. */
  lemma VerdictsWithoutLinks(fs: FileSystem, env: Place, rel: Path)
    requires WellFormed(fs) && LinkFree(fs) && IsCanonical(fs, env)
    requires !rel.absolute && rel.components != [] && ParentDir !in rel.components
    ensures var cs := rel.components;
            var status, target := ClassifyPackRef(fs, Normals(env), rel), env + Names(cs);
            (status.Missing? <==> CutOff(fs, env, Names(cs))) &&
            (status.Missing? ==> status.joined == Normals(env) + cs) &&
            (status.Resolved? <==> NodeAt(fs, target) == Some(File) && cs[|cs| - 1].Normal?) &&
            (status.Resolved? ==> status.canon == target)
  {
    hide Resolve, CutOff, Lstat, IsCanonical, Canonicalize, NormalizeUnderRoot, Names, Normals, WellFormed, LinkFree;
    var cs := rel.components;
    CanonicalizeFixes(fs, env);
    CanonicalExists(fs, env);
    LstatByNames(fs, env, cs);
    ResolveByNames(fs, env, cs, MAX_LINKS);
    EndsAtFile(fs, env, cs);
    CutOffIsNoFile(fs, env, Names(cs));
    if Resolve(fs, env, cs, MAX_LINKS).Ok? { NormalizeBelow(fs, env, rel); }
  }

  lemma NormalizeBelow(fs: FileSystem, env: Place, rel: Path)
    requires WellFormed(fs) && LinkFree(fs) && IsCanonical(fs, env)
    requires !rel.absolute && ParentDir !in rel.components && Resolve(fs, env, rel.components, MAX_LINKS).Ok?
    ensures NormalizeUnderRoot(fs, Normals(env), rel) == Ok(env + Names(rel.components))
  {
    hide Resolve, IsCanonical, CutOff, WellFormed, LinkFree;
    CanonicalizeFixes(fs, env);
    CanonicalExists(fs, env);
    CanonicalizeBelow(fs, env, rel.components);
    ResolveByNames(fs, env, rel.components, MAX_LINKS);
  }

  lemma CanonicalExists(fs: FileSystem, p: Place)
    requires IsCanonical(fs, p)
    ensures NodeAt(fs, p).Some?
  {
  }

  lemma CanonicalizeBelow(fs: FileSystem, env: Place, cs: seq<Component>)
    requires LinkFree(fs) && IsCanonical(fs, env)
    ensures Canonicalize(fs, Normals(env) + cs) == Resolve(fs, env, cs, MAX_LINKS)
  {
    hide Resolve, IsCanonical;
    CanonicalizeFixes(fs, env);
    ResolveConcat(fs, [], Normals(env), cs, MAX_LINKS);
  }

  /** Resolving to a file takes a name as last component, and a name that leads to a file resolves. */
  lemma EndsAtFile(fs: FileSystem, env: Place, cs: seq<Component>)
    requires WellFormed(fs) && LinkFree(fs) && NodeAt(fs, env).Some? && cs != [] && ParentDir !in cs
    ensures var r, target := Resolve(fs, env, cs, MAX_LINKS), env + Names(cs);
            NodeAt(fs, target) == Some(File) && cs[|cs| - 1].Normal? <==> r.Ok? && NodeAt(fs, r.value) == Some(File)
  {
    hide Resolve, CutOff, WellFormed;
    var n := |cs| - 1;
    var init, last := cs[..n], cs[n];
    assert cs == init + [last];
    ResolveByNames(fs, env, cs, MAX_LINKS);
    ResolveByNames(fs, env, init, MAX_LINKS);
    ResolveConcat(fs, env, init, [last], MAX_LINKS);
    ResolveOne(fs, env + Names(init), last, MAX_LINKS);
    if last.Normal? {
      var t := env + Names(init);
      assert env + Names(cs) == t + [last.name];
      if NodeAt(fs, t) != Some(Dir) { ChildNeedsDirectory(fs, t, last.name); }
      CutOffIsNoFile(fs, env, Names(init));
      if NodeAt(fs, t) == Some(Dir) { DirectoryIsNotCut(fs, env, Names(init)); }
    }
  }

  /** Nothing exists below a name that is missing. */
  lemma {:induction false} CutOffIsNoFile(fs: FileSystem, at: Place, names: Place)
    requires WellFormed(fs)
    ensures CutOff(fs, at, names) ==> NodeAt(fs, at + names) == None
  {
    if CutOff(fs, at, names) {
      var i :| 0 <= i < |names| && NodeAt(fs, at + names[..i]) == Some(Dir) && NodeAt(fs, at + names[..i + 1]) == None;
      MissingBelow(fs, at, names, i + 1);
      assert names[..|names|] == names;
    }
  }

  lemma {:induction false} MissingBelow(fs: FileSystem, at: Place, names: Place, i: nat)
    requires WellFormed(fs) && i <= |names| && NodeAt(fs, at + names[..i]) == None
    ensures NodeAt(fs, at + names[..|names|]) == None
    decreases |names| - i
  {
    if i < |names| {
      assert at + names[..i + 1] == at + names[..i] + [names[i]];
      ChildNeedsDirectory(fs, at + names[..i], names[i]);
      MissingBelow(fs, at, names, i + 1);
    }
  }

  lemma DirectoryIsNotCut(fs: FileSystem, at: Place, names: Place)
    requires WellFormed(fs) && NodeAt(fs, at + names) == Some(Dir)
    ensures !CutOff(fs, at, names)
  {
    CutOffIsNoFile(fs, at, names);
  }

  lemma LstatByNames(fs: FileSystem, env: Place, cs: seq<Component>)
    requires WellFormed(fs) && LinkFree(fs) && IsCanonical(fs, env) && cs != [] && ParentDir !in cs
    ensures var l, r := Lstat(fs, Normals(env) + cs), Resolve(fs, env, cs, MAX_LINKS);
            (l.Ok? <==> r.Ok?) && (l.Err? ==> r.Err? && l.error == r.error)
  {
    hide Resolve, IsCanonical, Normals, WellFormed;
    var path, n := Normals(env) + cs, |cs| - 1;
    var init, last := cs[..n], cs[n];
    assert path[|path| - 1] == last && path[..|path| - 1] == Normals(env) + init;
    assert cs == init + [last];
    CanonicalExists(fs, env);
    CanonicalizeBelow(fs, env, init);
    CanonicalizeBelow(fs, env, cs);
    ResolveConcat(fs, env, init, [last], MAX_LINKS);
    ResolveByNames(fs, env, cs, MAX_LINKS);
    var r := Resolve(fs, env, init, MAX_LINKS);
    if r.Ok? { ResolveOne(fs, r.value, last, MAX_LINKS); }
  }

  // ---------- scan_stale_revisions ----------

  datatype Revision = Revision(revisionId: nat, deploymentId: nat, packListLockRef: Path)
  datatype Entry = Entry(revisionId: nat)
  datatype TrafficSplit = TrafficSplit(deploymentId: nat, bundleId: nat, entries: seq<Entry>)
  datatype Environment = Environment(trafficSplits: seq<TrafficSplit>, revisions: seq<Revision>)

  datatype StaleRevision = StaleRevision(
    deploymentId: nat, revisionId: nat, bundleId: nat, recordedRef: Path, expectedPath: seq<Component>)

  predicate IsEmptyRef(p: Path) { !p.absolute && p.components == [] }

  function FindRevision(rs: seq<Revision>, revisionId: nat, deploymentId: nat): Option<Revision> {
    if rs == [] then None
    else if rs[0].revisionId == revisionId && rs[0].deploymentId == deploymentId then Some(rs[0])
    else FindRevision(rs[1..], revisionId, deploymentId)
  }

  /** The report, if any, for one routed entry. */
  function StaleFor(fs: FileSystem, envDir: seq<Component>, rs: seq<Revision>, split: TrafficSplit,
      e: Entry): seq<StaleRevision>
  {
    match FindRevision(rs, e.revisionId, split.deploymentId)
    case None => []
    case Some(r) =>
      if IsEmptyRef(r.packListLockRef) then []
      else
        match ClassifyPackRef(fs, envDir, r.packListLockRef)
        case Missing(joined) =>
          [StaleRevision(split.deploymentId, e.revisionId, split.bundleId, r.packListLockRef, joined)]
        case _ => []
  }

  function ScanEntries(fs: FileSystem, envDir: seq<Component>, rs: seq<Revision>, split: TrafficSplit,
      es: seq<Entry>): seq<StaleRevision>
  {
    if es == [] then []
    else ScanEntries(fs, envDir, rs, split, es[..|es| - 1]) + StaleFor(fs, envDir, rs, split, es[|es| - 1])
  }

  /** The reports for all routed entries, in the order of the splits and of their entries. */
  function ScanSplits(fs: FileSystem, envDir: seq<Component>, rs: seq<Revision>,
      splits: seq<TrafficSplit>): seq<StaleRevision>
  {
    if splits == [] then []
    else
      var n := |splits| - 1;
      ScanSplits(fs, envDir, rs, splits[..n]) + ScanEntries(fs, envDir, rs, splits[n], splits[n].entries)
  }

  method ScanStaleRevisions(fs: FileSystem, env: Environment,
      envDir: seq<Component>)
    returns (stale: seq<StaleRevision>)
    ensures stale == ScanSplits(fs, envDir, env.revisions, env.trafficSplits)
  {
    hide ClassifyPackRef, FindRevision, IsEmptyRef, ScanEntries, ScanSplits;
    stale := [];
    NoSplits(fs, envDir, env.revisions, env.trafficSplits);
    for i := 0 to |env.trafficSplits|
      invariant stale == ScanSplits(fs, envDir, env.revisions, env.trafficSplits[..i])
    {
      var split := env.trafficSplits[i];
      SplitsStep(fs, envDir, env.revisions, env.trafficSplits, i);
      NoEntries(fs, envDir, env.revisions, split);
      ghost var before := stale;
      for j := 0 to |split.entries|
        invariant stale == before + ScanEntries(fs, envDir, env.revisions, split, split.entries[..j])
      {
        EntriesStep(fs, envDir, env.revisions, split, j);
        var entry := split.entries[j];
        var revision := FindRevision(env.revisions, entry.revisionId, split.deploymentId);
        if revision.None? {
          continue;
        }
        if IsEmptyRef(revision.value.packListLockRef) {
          continue;
        }
        var status := ClassifyPackRef(fs, envDir, revision.value.packListLockRef);
        if status.Missing? {
          stale := stale + [StaleRevision(split.deploymentId, entry.revisionId, split.bundleId,
                                          revision.value.packListLockRef, status.joined)];
        }
      }
      assert split.entries[..|split.entries|] == split.entries;
    }
    assert env.trafficSplits[..|env.trafficSplits|] == env.trafficSplits;
  }

  lemma NoSplits(fs: FileSystem, envDir: seq<Component>, rs: seq<Revision>, splits: seq<TrafficSplit>)
    ensures ScanSplits(fs, envDir, rs, splits[..0]) == []
  {
  }

  lemma SplitsStep(fs: FileSystem, envDir: seq<Component>, rs: seq<Revision>, splits: seq<TrafficSplit>, i: nat)
    requires i < |splits|
    ensures ScanSplits(fs, envDir, rs, splits[..i + 1]) ==
            ScanSplits(fs, envDir, rs, splits[..i]) + ScanEntries(fs, envDir, rs, splits[i], splits[i].entries)
  {
    hide ScanEntries;
    assert splits[..i + 1][..i] == splits[..i];
  }

  lemma NoEntries(fs: FileSystem, envDir: seq<Component>, rs: seq<Revision>, split: TrafficSplit)
    ensures ScanEntries(fs, envDir, rs, split, split.entries[..0]) == []
  {
  }

  lemma EntriesStep(fs: FileSystem, envDir: seq<Component>, rs: seq<Revision>, split: TrafficSplit, j: nat)
    requires j < |split.entries|
    ensures ScanEntries(fs, envDir, rs, split, split.entries[..j + 1]) ==
            ScanEntries(fs, envDir, rs, split, split.entries[..j]) + StaleFor(fs, envDir, rs, split, split.entries[j])
  {
    hide StaleFor;
    assert split.entries[..j + 1][..j] == split.entries[..j];
  }

  predicate Routed(splits: seq<TrafficSplit>, revisionId: nat, deploymentId: nat) {
    exists s | s in splits :: s.deploymentId == deploymentId && Entry(revisionId) in s.entries
  }

  lemma {:induction false} FindSkips(a: seq<Revision>, r: Revision, b: seq<Revision>, revisionId: nat,
      deploymentId: nat)
    requires r.revisionId != revisionId || r.deploymentId != deploymentId
    ensures FindRevision(a + [r] + b, revisionId, deploymentId) == FindRevision(a + b, revisionId, deploymentId)
  {
    if a == [] {
      assert a + [r] + b == [r] + b && a + b == b;
      assert ([r] + b)[1..] == b;
    } else {
      assert (a + [r] + b)[1..] == a[1..] + [r] + b && (a + b)[1..] == a[1..] + b;
      FindSkips(a[1..], r, b, revisionId, deploymentId);
    }
  }

  lemma {:induction false} EntriesSkip(fs: FileSystem, envDir: seq<Component>, a: seq<Revision>, r: Revision,
      b: seq<Revision>, split: TrafficSplit, es: seq<Entry>)
    requires r.deploymentId == split.deploymentId ==> Entry(r.revisionId) !in es
    ensures ScanEntries(fs, envDir, a + [r] + b, split, es) == ScanEntries(fs, envDir, a + b, split, es)
  {
    hide ClassifyPackRef;
    if es != [] {
      var n := |es| - 1;
      assert es[n] in es;
      EntriesSkip(fs, envDir, a, r, b, split, es[..n]);
      FindSkips(a, r, b, es[n].revisionId, split.deploymentId);
    }
  }

  /** A revision that no split routes to never changes the scan, wherever it stands in the list and
      whatever it refers to. */
  lemma {:induction false} UnroutedIsIgnored(fs: FileSystem, envDir: seq<Component>, a: seq<Revision>, r: Revision,
      b: seq<Revision>, splits: seq<TrafficSplit>)
    requires !Routed(splits, r.revisionId, r.deploymentId)
    ensures ScanSplits(fs, envDir, a + [r] + b, splits) == ScanSplits(fs, envDir, a + b, splits)
  {
    hide ClassifyPackRef;
    if splits != [] {
      var n := |splits| - 1;
      assert splits[n] in splits;
      UnroutedIsIgnored(fs, envDir, a, r, b, splits[..n]);
      EntriesSkip(fs, envDir, a, r, b, splits[n], splits[n].entries);
    }
  }

  /** What the scan reports: exactly the routed entries whose first matching revision has a ref that is
      not empty and names nothing. */
  ghost predicate Reported(fs: FileSystem, envDir: seq<Component>, env: Environment, s: StaleRevision) {
    exists split, e | split in env.trafficSplits && e in split.entries ::
      s in StaleFor(fs, envDir, env.revisions, split, e)
  }

  lemma {:induction false} EntriesReport(fs: FileSystem, envDir: seq<Component>, rs: seq<Revision>,
      split: TrafficSplit, es: seq<Entry>, s: StaleRevision)
    ensures s in ScanEntries(fs, envDir, rs, split, es) <==>
            exists e | e in es :: s in StaleFor(fs, envDir, rs, split, e)
  {
    hide StaleFor;
    if es != [] {
      var n := |es| - 1;
      EntriesReport(fs, envDir, rs, split, es[..n], s);
      assert es == es[..n] + [es[n]];
    }
  }

  lemma {:induction false} ScanReports(fs: FileSystem, envDir: seq<Component>, rs: seq<Revision>,
      splits: seq<TrafficSplit>, s: StaleRevision)
    ensures s in ScanSplits(fs, envDir, rs, splits) <==> Reported(fs, envDir, Environment(splits, rs), s)
  {
    hide StaleFor, ScanEntries;
    if splits != [] {
      var n := |splits| - 1;
      ScanReports(fs, envDir, rs, splits[..n], s);
      EntriesReport(fs, envDir, rs, splits[n], splits[n].entries, s);
      assert splits == splits[..n] + [splits[n]];
    }
  }

  /** Every report names a file that really is not there: the place it expects cannot be looked at. */
  lemma ReportedIsMissing(fs: FileSystem, envDir: seq<Component>, env: Environment, s: StaleRevision)
    requires s in ScanSplits(fs, envDir, env.revisions, env.trafficSplits)
    ensures Lstat(fs, s.expectedPath) == Err(NotFound)
    ensures Routed(env.trafficSplits, s.revisionId, s.deploymentId)
    ensures !s.recordedRef.absolute && ParentDir !in s.recordedRef.components && s.recordedRef.components != []
  {
    hide ClassifyPackRef, Lstat, ScanSplits;
    ScanReports(fs, envDir, env.revisions, env.trafficSplits, s);
    var split, e :| split in env.trafficSplits && e in split.entries &&
        s in StaleFor(fs, envDir, env.revisions, split, e);
    VerdictsAreContained(fs, envDir, s.recordedRef);
  }
}
