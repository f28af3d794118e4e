/** A file system with symbolic links, path resolution as the operating system does it, and the two
    containment checks of src/path_safety.rs. */
module Paths {
  import opened Wrappers

  datatype Component = Normal(name: string) | CurDir | ParentDir

  /** A path as written; a relative one means something only below a directory. */
  datatype Path = Path(absolute: bool, components: seq<Component>)

  datatype Node = Dir | File | Link(target: Path)

  /** The names that lead from the root to an entry, none of them followed through a link. */
  type Place = seq<string>

  /** All entries below the root directory. */
  type FileSystem = map<Place, Node>

  datatype IoError = NotFound | NotADirectory | TooManyLinks

  const MAX_LINKS: nat := 40

  function NodeAt(fs: FileSystem, p: Place): Option<Node> {
    if p == [] then Some(Dir) else if p in fs then Some(fs[p]) else None
  }

  /** Every entry sits in a directory. */
  predicate WellFormed(fs: FileSystem) {
    forall p | p in fs && p != [] :: NodeAt(fs, p[..|p| - 1]) == Some(Dir)
  }

  function Parent(p: Place): Place { if p == [] then [] else p[..|p| - 1] }

  function Normals(p: Place): (r: seq<Component>)
    ensures |r| == |p|
    ensures forall i | 0 <= i < |p| :: r[i] == Normal(p[i])
  {
    if p == [] then [] else Normals(p[..|p| - 1]) + [Normal(p[|p| - 1])]
  }

  /** Follows the components from a place that exists, links included, at most `links` of them. */
  function Resolve(fs: FileSystem, at: Place, rest: seq<Component>, links: nat): Result<Place, IoError>
    decreases links, |rest|
  {
    if rest == [] then Ok(at)
    else if NodeAt(fs, at) != Some(Dir) then Err(NotADirectory)
    else
      match rest[0]
      case CurDir => Resolve(fs, at, rest[1..], links)
      case ParentDir => Resolve(fs, Parent(at), rest[1..], links)
      case Normal(n) =>
        match NodeAt(fs, at + [n])
        case None => Err(NotFound)
        case Some(Link(t)) =>
          if links == 0 then Err(TooManyLinks)
          else Resolve(fs, if t.absolute then [] else at, t.components + rest[1..], links - 1)
        case Some(_) => Resolve(fs, at + [n], rest[1..], links)
  }

  /** `canonicalize` on an absolute path. */
  function Canonicalize(fs: FileSystem, path: seq<Component>): Result<Place, IoError> {
    Resolve(fs, [], path, MAX_LINKS)
  }

  /** `symlink_metadata` on an absolute path: a link in the last position is not followed. */
  function Lstat(fs: FileSystem, path: seq<Component>): Result<Node, IoError> {
    if path != [] && path[|path| - 1].Normal? then
      match Canonicalize(fs, path[..|path| - 1])
      case Err(e) => Err(e)
      case Ok(d) =>
        if NodeAt(fs, d) != Some(Dir) then Err(NotADirectory)
        else
          match NodeAt(fs, d + [path[|path| - 1].name])
          case None => Err(NotFound)
          case Some(node) => Ok(node)
    else
      match Canonicalize(fs, path)
      case Err(e) => Err(e)
      case Ok(p) => if NodeAt(fs, p).Some? then Ok(NodeAt(fs, p).value) else Err(NotFound)
  }

  // ---------- canonical places ----------

  /** Every entry on the way exists, is no link, and is a directory except possibly the last. */
  predicate IsCanonical(fs: FileSystem, p: Place) {
    (forall i | 0 <= i < |p| :: NodeAt(fs, p[..i]) == Some(Dir)) &&
    NodeAt(fs, p).Some? && !NodeAt(fs, p).value.Link?
  }

  lemma CanonicalPrefix(fs: FileSystem, p: Place, n: nat)
    requires n <= |p| && IsCanonical(fs, p)
    ensures IsCanonical(fs, p[..n])
  {
    assert forall i | 0 <= i < n :: p[..n][..i] == p[..i];
    assert p[..|p|] == p;
  }

  lemma CanonicalChild(fs: FileSystem, at: Place, n: string)
    requires IsCanonical(fs, at) && NodeAt(fs, at) == Some(Dir)
    requires NodeAt(fs, at + [n]).Some? && !NodeAt(fs, at + [n]).value.Link?
    ensures IsCanonical(fs, at + [n])
  {
    var p := at + [n];
    forall i | 0 <= i < |p| ensures NodeAt(fs, p[..i]) == Some(Dir) {
      assert p[..i] == if i == |at| then at else at[..i];
    }
  }

  /** Resolution never ends at a link or below one: its results are canonical. */
  lemma {:induction false} ResolveIsCanonical(fs: FileSystem, at: Place, rest: seq<Component>, links: nat)
    requires IsCanonical(fs, at)
    ensures var r := Resolve(fs, at, rest, links); r.Ok? ==> IsCanonical(fs, r.value)
    decreases links, |rest|
  {
    hide IsCanonical;
    if rest != [] && NodeAt(fs, at) == Some(Dir) {
      match rest[0]
      case CurDir => ResolveIsCanonical(fs, at, rest[1..], links);
      case ParentDir =>
        CanonicalPrefix(fs, at, |Parent(at)|);
        assert Parent(at) == at[..|Parent(at)|];
        ResolveIsCanonical(fs, Parent(at), rest[1..], links);
      case Normal(n) =>
        match NodeAt(fs, at + [n])
        case None =>
        case Some(Link(t)) =>
          if links > 0 {
            RootIsCanonical(fs);
            ResolveIsCanonical(fs, if t.absolute then [] else at, t.components + rest[1..], links - 1);
          }
        case Some(_) =>
          CanonicalChild(fs, at, n);
          ResolveIsCanonical(fs, at + [n], rest[1..], links);
    }
  }

  lemma RootIsCanonical(fs: FileSystem)
    ensures IsCanonical(fs, [])
  {
  }

  /** Walking down the names of a canonical place meets no link. */
  lemma {:induction false} ResolveNames(fs: FileSystem, at: Place, names: Place, rest: seq<Component>, links: nat)
    requires IsCanonical(fs, at + names)
    ensures Resolve(fs, at, Normals(names) + rest, links) == Resolve(fs, at + names, rest, links)
    decreases |names|
  {
    var all := Normals(names) + rest;
    if names == [] {
      assert all == rest && at + names == at;
    } else {
      var p, tail := at + names, names[1..];
      assert p[..|at|] == at && p[..|at| + 1] == at + [names[0]];
      assert (at + [names[0]]) + tail == p;
      if tail == [] { assert p == at + [names[0]]; }
      assert all[1..] == Normals(tail) + rest;
      ResolveNames(fs, at + [names[0]], tail, rest, links);
    }
  }

  /** A place is its own canonical form exactly when it is canonical. */
  lemma CanonicalizeFixes(fs: FileSystem, p: Place)
    ensures Canonicalize(fs, Normals(p)) == Ok(p) <==> IsCanonical(fs, p)
  {
    hide IsCanonical;
    RootIsCanonical(fs);
    ResolveIsCanonical(fs, [], Normals(p), MAX_LINKS);
    if IsCanonical(fs, p) {
      assert [] + p == p && Normals(p) + [] == Normals(p);
      ResolveNames(fs, [], p, [], MAX_LINKS);
    }
  }

  // ---------- assert_no_symlink_ancestors ----------

  datatype PathSafetyError =
    | SymlinkAncestor(path: seq<Component>)
    | Io(path: seq<Component>, source: IoError)

  /** What the walk says about the components still to come below `current`. */
  function Walk(fs: FileSystem, current: seq<Component>, suffix: seq<Component>): Result<(), PathSafetyError>
    decreases |suffix|
  {
    if suffix == [] then Ok(())
    else
      var next := current + [suffix[0]];
      match Lstat(fs, next)
      case Ok(Link(_)) => Err(SymlinkAncestor(next))
      case Ok(_) => Walk(fs, next, suffix[1..])
      case Err(NotFound) => Ok(())
      case Err(e) => Err(Io(next, e))
  }

  /** `assert_no_symlink_ancestors`: a target that is not under the root passes unchecked. */
  method AssertNoSymlinkAncestors(fs: FileSystem, root: seq<Component>, target: seq<Component>)
    returns (r: Result<(), PathSafetyError>)
    ensures r == if root <= target then Walk(fs, root, target[|root|..]) else Ok(())
  {
    hide Lstat;
    if !(root <= target) {
      return Ok(());
    }
    var suffix := target[|root|..];
    var current := root;
    for i := 0 to |suffix|
      invariant Walk(fs, root, suffix) == Walk(fs, current, suffix[i..])
    {
      assert suffix[i..][1..] == suffix[i + 1..];
      current := current + [suffix[i]];
      match Lstat(fs, current) {
        case Ok(Link(_)) => return Err(SymlinkAncestor(current));
        case Ok(_) =>
        case Err(NotFound) => return Ok(());
        case Err(e) => return Err(Io(current, e));
      }
    }
    r := Ok(());
  }

  lemma LstatChild(fs: FileSystem, at: Place, n: string)
    requires IsCanonical(fs, at)
    ensures Lstat(fs, Normals(at) + [Normal(n)]) ==
            (if NodeAt(fs, at) != Some(Dir) then Err(NotADirectory)
             else if NodeAt(fs, at + [n]) == None then Err(NotFound) else Ok(NodeAt(fs, at + [n]).value))
  {
    hide IsCanonical, Resolve;
    var path := Normals(at) + [Normal(n)];
    assert path[..|path| - 1] == Normals(at);
    CanonicalizeFixes(fs, at);
  }

  lemma NormalsConcat(a: Place, b: Place)
    ensures Normals(a + b) == Normals(a) + Normals(b)
  {
  }

  lemma CanonicalizeBelowMissing(fs: FileSystem, at: Place, n: string, rest: seq<Component>)
    requires IsCanonical(fs, at) && NodeAt(fs, at) == Some(Dir) && NodeAt(fs, at + [n]) == None
    ensures Canonicalize(fs, Normals(at) + ([Normal(n)] + rest)) == Err(NotFound)
  {
    hide IsCanonical;
    assert [] + at == at;
    ResolveNames(fs, [], at, [Normal(n)] + rest, MAX_LINKS);
  }

  /** A path whose way is cut off cannot be looked at. */
  lemma LstatBelowMissing(fs: FileSystem, at: Place, names: Place)
    requires IsCanonical(fs, at) && NodeAt(fs, at) == Some(Dir) && names != []
    requires NodeAt(fs, at + [names[0]]) == None
    ensures Lstat(fs, Normals(at + names)) == Err(NotFound)
  {
    hide IsCanonical, Canonicalize, Lstat, NodeAt, Normals;
    var n, last, ns := names[0], |names| - 1, Normals(names);
    NormalsConcat(at, names);
    if last == 0 {
      assert ns == [Normal(n)];
      LstatChild(fs, at, n);
    } else {
      var path, rest := Normals(at + names), ns[1..last];
      assert ns[..last] == [Normal(n)] + rest;
      assert path[..|path| - 1] == Normals(at) + ns[..last];
      CanonicalizeBelowMissing(fs, at, n, rest);
      LstatNoParent(fs, path, NotFound);
    }
  }

  lemma LstatNoParent(fs: FileSystem, path: seq<Component>, e: IoError)
    requires path != [] && path[|path| - 1].Normal? && Canonicalize(fs, path[..|path| - 1]) == Err(e)
    ensures Lstat(fs, path) == Err(e)
  {
    hide Canonicalize;
  }

  /** The walk over plain names is exact: it passes over an existing target if and only if the target
      is canonical, that is, no component below the root is a link. */
  lemma {:induction false} WalkIffCanonical(fs: FileSystem, at: Place, names: Place)
    requires IsCanonical(fs, at)
    ensures Walk(fs, Normals(at), Normals(names)) == Ok(()) && Lstat(fs, Normals(at + names)).Ok? <==>
            IsCanonical(fs, at + names)
    decreases |names|
  {
    hide IsCanonical, Lstat, Resolve;
    if names == [] {
      assert at + names == at;
      LstatCanonical(fs, at);
    } else {
      var n, tail := names[0], names[1..];
      var child := at + [n];
      assert Normals(names)[1..] == Normals(tail);
      assert Normals(at) + [Normals(names)[0]] == Normals(child) by { NormalsConcat(at, [n]); }
      LstatChild(fs, at, n);
      assert child + tail == at + names;
      if NodeAt(fs, at) == Some(Dir) && NodeAt(fs, child) == None {
        LstatBelowMissing(fs, at, names);
      } else if NodeAt(fs, at) == Some(Dir) && !NodeAt(fs, child).value.Link? {
        CanonicalChild(fs, at, n);
        WalkIffCanonical(fs, child, tail);
      }
      CanonicalNeedsChild(fs, at, n, tail);
    }
  }

  // ---------- what the walk says, for every target ----------

  /** The way down to the first i names is canonical and ends at a directory. */
  predicate Reaches(fs: FileSystem, at: Place, names: Place, i: nat)
    requires i < |names|
  {
    IsCanonical(fs, at + names[..i]) && NodeAt(fs, at + names[..i]) == Some(Dir)
  }

  /** Below the first i names the way goes through a link. */
  predicate LinkAt(fs: FileSystem, at: Place, names: Place, i: nat)
    requires i < |names|
  {
    var next := NodeAt(fs, at + names[..i + 1]);
    Reaches(fs, at, names, i) && next.Some? && next.value.Link?
  }

  /** Below the first i names nothing is there. */
  predicate MissingAt(fs: FileSystem, at: Place, names: Place, i: nat)
    requires i < |names|
  {
    Reaches(fs, at, names, i) && NodeAt(fs, at + names[..i + 1]) == None
  }

  /** The first i names lead to a file, and the target would lie below it. */
  predicate FileAt(fs: FileSystem, at: Place, names: Place, i: nat)
    requires i < |names|
  {
    IsCanonical(fs, at + names[..i]) && NodeAt(fs, at + names[..i]) == Some(File)
  }

  /** The conclusions of the walk from a canonical root over plain names. */
  ghost predicate WalkSays(fs: FileSystem, at: Place, names: Place, r: Result<(), PathSafetyError>) {
    (r == Ok(()) <==> IsCanonical(fs, at + names) || exists i | 0 <= i < |names| :: MissingAt(fs, at, names, i)) &&
    (forall i | 0 <= i < |names| ::
       r == Err(SymlinkAncestor(Normals(at + names[..i + 1]))) <==> LinkAt(fs, at, names, i)) &&
    (forall i | 0 <= i < |names| ::
       r == Err(Io(Normals(at + names[..i + 1]), NotADirectory)) <==> FileAt(fs, at, names, i)) &&
    (r.Err? ==> exists i | 0 <= i < |names| :: LinkAt(fs, at, names, i) || FileAt(fs, at, names, i))
  }

  /** The walk, exactly: it passes if and only if the target is canonical or does not exist below a
      canonical directory; it names the first link as a link, and fails below a file. */
  lemma {:induction false} WalkExact(fs: FileSystem, at: Place, names: Place)
    requires IsCanonical(fs, at)
    ensures WalkSays(fs, at, names, Walk(fs, Normals(at), Normals(names)))
    decreases |names|
  {
    hide IsCanonical, Lstat, Resolve, WalkSays;
    if names == [] {
      assert at + names == at;
      NothingToWalk(fs, at);
    } else {
      var n, tail := names[0], names[1..];
      var child := at + [n];
      assert Normals(names)[1..] == Normals(tail);
      assert Normals(at) + [Normals(names)[0]] == Normals(child) by { NormalsConcat(at, [n]); }
      LstatChild(fs, at, n);
      if NodeAt(fs, at) == Some(Dir) && NodeAt(fs, child).Some? && !NodeAt(fs, child).value.Link? {
        CanonicalChild(fs, at, n);
        WalkExact(fs, child, tail);
        WalkStep(fs, at, names, Walk(fs, Normals(child), Normals(tail)));
      } else {
        WalkEnds(fs, at, names);
      }
    }
  }

  lemma NothingToWalk(fs: FileSystem, at: Place)
    requires IsCanonical(fs, at)
    ensures WalkSays(fs, at, [], Ok(()))
  {
    hide IsCanonical;
    assert at + [] == at;
  }

  lemma NamesBelow(at: Place, names: Place, i: nat)
    requires names != [] && i < |names|
    ensures at + [names[0]] + names[1..][..i] == at + names[..i + 1]
  {
    assert names[..i + 1] == [names[0]] + names[1..][..i];
  }

  /** The first name leads to a file or a directory: what is said below it is said of the whole. */
  lemma WalkStep(fs: FileSystem, at: Place, names: Place, r: Result<(), PathSafetyError>)
    requires names != [] && IsCanonical(fs, at) && NodeAt(fs, at) == Some(Dir)
    requires NodeAt(fs, at + [names[0]]).Some? && !NodeAt(fs, at + [names[0]]).value.Link?
    requires WalkSays(fs, at + [names[0]], names[1..], r)
    ensures WalkSays(fs, at, names, r)
  {
    hide IsCanonical, Normals;
    var child, tail := at + [names[0]], names[1..];
    assert child + tail == at + names && at + names[..0] == at;
    NamesBelow(at, names, 0);
    assert names[..1] == [names[0]];
    assert !LinkAt(fs, at, names, 0) && !MissingAt(fs, at, names, 0) && !FileAt(fs, at, names, 0);
    forall i | 0 < i < |names|
      ensures LinkAt(fs, at, names, i) <==> LinkAt(fs, child, tail, i - 1)
      ensures MissingAt(fs, at, names, i) <==> MissingAt(fs, child, tail, i - 1)
      ensures FileAt(fs, at, names, i) <==> FileAt(fs, child, tail, i - 1)
      ensures child + tail[..i - 1 + 1] == at + names[..i + 1]
    {
      NamesBelow(at, names, i);
      NamesBelow(at, names, i - 1);
    }
    forall i | 0 <= i < |tail|
      ensures LinkAt(fs, child, tail, i) <==> LinkAt(fs, at, names, i + 1)
      ensures MissingAt(fs, child, tail, i) <==> MissingAt(fs, at, names, i + 1)
      ensures FileAt(fs, child, tail, i) <==> FileAt(fs, at, names, i + 1)
    {
      assert LinkAt(fs, at, names, i + 1) <==> LinkAt(fs, child, tail, i + 1 - 1);
    }
    FirstIsNoError(fs, at, names, r);
  }

  /** No error below the first name names the first name itself. */
  lemma FirstIsNoError(fs: FileSystem, at: Place, names: Place, r: Result<(), PathSafetyError>)
    requires names != [] && WalkSays(fs, at + [names[0]], names[1..], r)
    ensures r != Err(SymlinkAncestor(Normals(at + names[..1])))
    ensures r != Err(Io(Normals(at + names[..1]), NotADirectory))
  {
    hide IsCanonical;
    var child, tail := at + [names[0]], names[1..];
    if r.Err? {
      var i :| 0 <= i < |tail| && (LinkAt(fs, child, tail, i) || FileAt(fs, child, tail, i));
      assert |child + tail[..i + 1]| > |at + names[..1]|;
      assert |Normals(child + tail[..i + 1])| > |Normals(at + names[..1])|;
    }
  }

  /** The walk ends at the first name: it is missing, a link, or below a file. */
  lemma WalkEnds(fs: FileSystem, at: Place, names: Place)
    requires names != [] && IsCanonical(fs, at)
    requires !(NodeAt(fs, at) == Some(Dir) && NodeAt(fs, at + [names[0]]).Some? &&
               !NodeAt(fs, at + [names[0]]).value.Link?)
    ensures WalkSays(fs, at, names, Walk(fs, Normals(at), Normals(names)))
  {
    hide IsCanonical, Lstat, Resolve, WalkSays, Normals;
    var n, child := names[0], at + [names[0]];
    NormalsAt(names);
    assert Normals(at) + [Normals(names)[0]] == Normals(child) by { NormalsConcat(at, [n]); NormalsAt([n]); }
    LstatChild(fs, at, n);
    CanonicalIsFileOrDir(fs, at);
    WalkEndsAt(fs, at, names);
  }

  lemma NormalsAt(names: Place)
    ensures |Normals(names)| == |names| && forall i | 0 <= i < |names| :: Normals(names)[i] == Normal(names[i])
  {
  }

  lemma WalkEndsAt(fs: FileSystem, at: Place, names: Place)
    requires names != [] && IsCanonical(fs, at) && NodeAt(fs, at) in {Some(File), Some(Dir)}
    requires !(NodeAt(fs, at) == Some(Dir) && NodeAt(fs, at + [names[0]]).Some? &&
               !NodeAt(fs, at + [names[0]]).value.Link?)
    ensures WalkSays(fs, at, names,
              if NodeAt(fs, at) == Some(File) then Err(Io(Normals(at + [names[0]]), NotADirectory))
              else if NodeAt(fs, at + [names[0]]) == None then Ok(())
              else Err(SymlinkAncestor(Normals(at + [names[0]]))))
  {
    hide IsCanonical, Normals;
    var n, child := names[0], at + [names[0]];
    assert at + names[..0] == at && at + names[..1] == child by { assert names[..1] == [n]; }
    NothingBelow(fs, at, names);
    LongerPaths(at, names);
    assert NodeAt(fs, at) == Some(Dir) && NodeAt(fs, child) == None ==> MissingAt(fs, at, names, 0);
    assert NodeAt(fs, at) == Some(File) ==> FileAt(fs, at, names, 0);
    assert NodeAt(fs, at) == Some(Dir) && NodeAt(fs, child).Some? ==> LinkAt(fs, at, names, 0);
  }

  lemma NothingBelow(fs: FileSystem, at: Place, names: Place)
    requires names != []
    requires !(NodeAt(fs, at) == Some(Dir) && NodeAt(fs, at + [names[0]]).Some? &&
               !NodeAt(fs, at + [names[0]]).value.Link?)
    ensures !IsCanonical(fs, at + names)
    ensures forall i | 0 < i < |names| ::
              !LinkAt(fs, at, names, i) && !MissingAt(fs, at, names, i) && !FileAt(fs, at, names, i)
  {
    hide IsCanonical;
    assert at + [names[0]] + names[1..] == at + names;
    CanonicalNeedsChild(fs, at, names[0], names[1..]);
    forall i | 0 < i < |names|
      ensures !LinkAt(fs, at, names, i) && !MissingAt(fs, at, names, i) && !FileAt(fs, at, names, i)
    {
      NamesBelow(at, names, i - 1);
      CanonicalNeedsChild(fs, at, names[0], names[1..][..i - 1]);
    }
  }

  lemma LongerPaths(at: Place, names: Place)
    requires names != []
    ensures forall i {:trigger names[..i + 1]} | 0 < i < |names| ::
              Normals(at + names[..i + 1]) != Normals(at + [names[0]])
  {
    hide Normals;
    forall i {:trigger names[..i + 1]} | 0 < i < |names|
      ensures Normals(at + names[..i + 1]) != Normals(at + [names[0]])
    {
      NormalsAt(at + names[..i + 1]);
      NormalsAt(at + [names[0]]);
    }
  }

  lemma CanonicalIsFileOrDir(fs: FileSystem, p: Place)
    requires IsCanonical(fs, p)
    ensures NodeAt(fs, p) in {Some(File), Some(Dir)}
  {
  }

  lemma LstatCanonical(fs: FileSystem, p: Place)
    requires IsCanonical(fs, p)
    ensures Lstat(fs, Normals(p)).Ok?
  {
    hide Resolve;
    if p == [] {
      CanonicalizeFixes(fs, p);
    } else {
      var at, n := p[..|p| - 1], p[|p| - 1];
      CanonicalPrefix(fs, p, |p| - 1);
      assert p == at + [n];
      LstatChild(fs, at, n);
      NormalsConcat(at, [n]);
    }
  }

  lemma CanonicalNeedsChild(fs: FileSystem, at: Place, n: string, tail: Place)
    ensures IsCanonical(fs, at + [n] + tail) ==>
              NodeAt(fs, at) == Some(Dir) && NodeAt(fs, at + [n]).Some? && !NodeAt(fs, at + [n]).value.Link?
  {
    var p := at + [n] + tail;
    assert p[..|at|] == at && p[..|at| + 1] == at + [n];
    if tail == [] { assert p == at + [n]; }
  }

  // ---------- normalize_under_root ----------

  datatype NormalizeError = AbsoluteCandidate | NoRoot(e: IoError) | NoTarget(e: IoError) | Escapes(to: Place)

  function NormalizeUnderRoot(fs: FileSystem, root: seq<Component>, candidate: Path): Result<Place, NormalizeError> {
    if candidate.absolute then Err(AbsoluteCandidate)
    else
      match Canonicalize(fs, root)
      case Err(e) => Err(NoRoot(e))
      case Ok(rootCanon) =>
        match Canonicalize(fs, Normals(rootCanon) + candidate.components)
        case Err(e) => Err(NoTarget(e))
        case Ok(canon) => if rootCanon <= canon then Ok(canon) else Err(Escapes(canon))
  }

  /** Whatever links and dots a candidate goes through, an accepted place is canonical and lies below
      the canonical root; and every relative candidate that leads to such a place is accepted. */
  lemma NormalizedIsContained(fs: FileSystem, root: seq<Component>, candidate: Path)
    ensures var r, rc := NormalizeUnderRoot(fs, root, candidate), Canonicalize(fs, root);
            (r.Ok? ==> IsCanonical(fs, r.value) && Canonicalize(fs, Normals(r.value)) == Ok(r.value)) &&
            forall p :: r == Ok(p) <==>
              !candidate.absolute && rc.Ok? && rc.value <= p &&
              Canonicalize(fs, Normals(rc.value) + candidate.components) == Ok(p)
  {
    hide IsCanonical, Resolve;
    RootIsCanonical(fs);
    var rc := Canonicalize(fs, root);
    if rc.Ok? {
      ResolveIsCanonical(fs, [], Normals(rc.value) + candidate.components, MAX_LINKS);
      var c := Canonicalize(fs, Normals(rc.value) + candidate.components);
      if c.Ok? { CanonicalizeFixes(fs, c.value); }
    }
  }

  /** Walking first makes the canonical check succeed without moving: if the walk accepts an existing
      target of plain names below a canonical root, both checks agree on the target itself. The walk is
      also necessary: the target is its own canonical form only then. */
  lemma WalkImpliesContainment(fs: FileSystem, root: Place, names: Place)
    requires IsCanonical(fs, root)
    ensures Walk(fs, Normals(root), Normals(names)) == Ok(()) && Lstat(fs, Normals(root + names)).Ok? <==>
            Canonicalize(fs, Normals(root + names)) == Ok(root + names)
    ensures Canonicalize(fs, Normals(root + names)) == Ok(root + names) ==>
              NormalizeUnderRoot(fs, Normals(root), Path(false, Normals(names))) == Ok(root + names)
  {
    hide IsCanonical, Resolve, Walk, Lstat;
    WalkIffCanonical(fs, root, names);
    CanonicalizeFixes(fs, root + names);
    CanonicalizeFixes(fs, root);
    NormalsConcat(root, names);
  }
}
