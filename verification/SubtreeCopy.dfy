/** Copying a subtree out of a deployment pack, from a directory or from an archive (src/contract.rs). */
module SubtreeCopy {
  import opened Wrappers
  import opened Sorting

  type Names = seq<string>
  type Write = (Names, string)

  /** One item of a directory listing. */
  datatype Node = FileNode(name: string, bytes: string) | DirNode(name: string, entries: seq<Node>)

  /** One archive entry: its name, and what the zip library gives as its enclosed name, if it gives one. */
  datatype ArchiveEntry = ArchiveEntry(path: Names, enclosed: Option<Names>, isDir: bool, bytes: string)

  // ---------- effects ----------

  function Apply(files: map<Names, string>, ws: seq<Write>): map<Names, string> {
    if ws == [] then files else var n := |ws| - 1; Apply(files, ws[..n])[ws[n].0 := ws[n].1]
  }

  function Paths(ws: seq<Write>): (r: seq<Names>)
    ensures |r| == |ws| && forall i | 0 <= i < |ws| :: r[i] == ws[i].0
  {
    if ws == [] then [] else Paths(ws[..|ws| - 1]) + [ws[|ws| - 1].0]
  }

  lemma {:induction false} ApplyConcat(files: map<Names, string>, a: seq<Write>, b: seq<Write>)
    ensures Apply(files, a + b) == Apply(Apply(files, a), b)
  {
    if b == [] {
      assert a + b == a;
    } else {
      assert (a + b)[..|a + b| - 1] == a + b[..|b| - 1];
      ApplyConcat(files, a, b[..|b| - 1]);
    }
  }

  /** The destination directory, with the list of what was copied into it. */
  class Destination {
    var files: map<Names, string>
    var copied: seq<Names>

    constructor (initial: map<Names, string>)
      ensures files == initial && copied == []
    {
      files := initial;
      copied := [];
    }

    method WriteFile(relative: Names, bytes: string)
      modifies this
      ensures files == old(files)[relative := bytes] && copied == old(copied) + [relative]
    {
      files := files[relative := bytes];
      copied := copied + [relative];
    }
  }

  // ---------- from a directory ----------

  /** The files below some entries, in the order of the listings. */
  function FilesOf(entries: seq<Node>, prefix: Names): seq<Write>
    decreases entries
  {
    if entries == [] then []
    else
      var e := entries[|entries| - 1];
      FilesOf(entries[..|entries| - 1], prefix) +
      match e
      case FileNode(name, bytes) => [(prefix + [name], bytes)]
      case DirNode(name, es) => FilesOf(es, prefix + [name])
  }

  /** `copy_dir_recursive` */
  method CopyDirRecursive(entries: seq<Node>, prefix: Names, dest: Destination)
    modifies dest
    ensures dest.files == Apply(old(dest.files), FilesOf(entries, prefix))
    ensures dest.copied == old(dest.copied) + Paths(FilesOf(entries, prefix))
    decreases entries
  {
    hide Apply, FilesOf, Paths;
    ApplyNothing(dest.files);
    NoFilesYet(entries, prefix);
    for i := 0 to |entries|
      invariant dest.files == Apply(old(dest.files), FilesOf(entries[..i], prefix))
      invariant dest.copied == old(dest.copied) + Paths(FilesOf(entries[..i], prefix))
    {
      ghost var before := FilesOf(entries[..i], prefix);
      FilesStep(entries, prefix, i);
      PathsConcat(before, LastFiles(entries[i], prefix));
      match entries[i] {
        case DirNode(name, es) =>
          CopyDirRecursive(es, prefix + [name], dest);
          ApplyConcat(old(dest.files), before, FilesOf(es, prefix + [name]));
        case FileNode(name, bytes) =>
          dest.WriteFile(prefix + [name], bytes);
          ApplyStep(old(dest.files), before, (prefix + [name], bytes));
          PathsOne((prefix + [name], bytes));
      }
    }
    assert entries[..|entries|] == entries;
  }

  lemma NoFilesYet(entries: seq<Node>, prefix: Names)
    ensures FilesOf(entries[..0], prefix) == [] && Paths([]) == []
  {
  }

  lemma FilesStep(entries: seq<Node>, prefix: Names, i: nat)
    requires i < |entries|
    ensures FilesOf(entries[..i + 1], prefix) == FilesOf(entries[..i], prefix) + LastFiles(entries[i], prefix)
  {
    hide FilesOf;
    FilesLast(entries[..i + 1], prefix);
    assert entries[..i + 1][..i] == entries[..i];
  }

  lemma PathsConcat(a: seq<Write>, b: seq<Write>)
    ensures Paths(a + b) == Paths(a) + Paths(b)
  {
    hide Paths;
  }

  lemma PathsOne(w: Write)
    ensures Paths([w]) == [w.0]
  {
  }

  lemma ApplyNothing(files: map<Names, string>)
    ensures Apply(files, []) == files
  {
  }

  lemma ApplyStep(files: map<Names, string>, ws: seq<Write>, w: Write)
    ensures Apply(files, ws + [w]) == Apply(files, ws)[w.0 := w.1]
  {
    assert (ws + [w])[..|ws|] == ws;
  }

  datatype Found = Missing | IsFile(bytes: string) | IsDir(entries: seq<Node>)

  function FindNode(entries: seq<Node>, name: string): Option<Node> {
    if entries == [] then None
    else if entries[0].name == name then Some(entries[0])
    else FindNode(entries[1..], name)
  }

  function Lookup(entries: seq<Node>, path: Names): Found
    decreases |path|
  {
    if path == [] then IsDir(entries)
    else
      match FindNode(entries, path[0])
      case None => Missing
      case Some(FileNode(_, bytes)) => if |path| == 1 then IsFile(bytes) else Missing
      case Some(DirNode(_, es)) => Lookup(es, path[1..])
  }

  /** What a directory pack contributes: nothing if the subtree is not there. */
  function DirWrites(root: seq<Node>, subtree: Names): seq<Write> {
    match Lookup(root, subtree)
    case IsDir(es) => FilesOf(es, [])
    case _ => []
  }

  /** `copy_pack_subtree_from_dir`; listing a file fails. */
  method CopyFromDir(root: seq<Node>, subtree: Names, dest: Destination) returns (ok: bool, sorted: seq<string>)
    modifies dest
    ensures ok <==> !Lookup(root, subtree).IsFile?
    ensures ok ==> dest.files == Apply(old(dest.files), DirWrites(root, subtree))
    ensures ok ==> sorted == Sort(DisplayAll(Paths(DirWrites(root, subtree))))
  {
    hide Sort, DisplayAll, Apply;
    dest.copied := [];
    match Lookup(root, subtree) {
      case Missing =>
        ApplyNothing(dest.files);
        SortNothing();
        return true, [];
      case IsFile(_) =>
        return false, [];
      case IsDir(es) =>
        CopyDirRecursive(es, [], dest);
        assert dest.copied == Paths(FilesOf(es, []));
        return true, Sort(DisplayAll(dest.copied));
    }
  }

  // ---------- from an archive ----------

  /** The name a scan goes by: tar takes every name, zip only enclosed ones. */
  function NameIn(e: ArchiveEntry, zip: bool): Option<Names> { if zip then e.enclosed else Some(e.path) }

  /** The entries a scan copies. */
  predicate Selects(e: ArchiveEntry, subtree: Names, zip: bool) {
    NameIn(e, zip).Some? && subtree <= NameIn(e, zip).value && !e.isDir
  }

  /** Where a scan writes a selected entry, below the destination. */
  function Relative(e: ArchiveEntry, subtree: Names, zip: bool): Names
    requires Selects(e, subtree, zip)
  {
    NameIn(e, zip).value[|subtree|..]
  }

  function ArchiveWrites(archive: seq<ArchiveEntry>, subtree: Names, zip: bool): seq<Write> {
    if archive == [] then []
    else
      var n := |archive| - 1;
      var e := archive[n];
      ArchiveWrites(archive[..n], subtree, zip) +
      (if Selects(e, subtree, zip) then [(Relative(e, subtree, zip), e.bytes)] else [])
  }

  /** `copy_pack_subtree_from_tar_gtpack` and, with zip, `copy_pack_subtree_from_zip_gtpack` */
  method CopyFromArchive(archive: seq<ArchiveEntry>, subtree: Names, zip: bool,
      dest: Destination)
    returns (sorted: seq<string>)
    modifies dest
    ensures dest.files == Apply(old(dest.files), ArchiveWrites(archive, subtree, zip))
    ensures sorted == Sort(DisplayAll(Paths(ArchiveWrites(archive, subtree, zip))))
  {
    hide Sort, DisplayAll, Apply, ArchiveWrites, Paths;
    dest.copied := [];
    ApplyNothing(dest.files);
    NothingSelected(archive, subtree, zip);
    for i := 0 to |archive|
      invariant dest.files == Apply(old(dest.files), ArchiveWrites(archive[..i], subtree, zip))
      invariant dest.copied == Paths(ArchiveWrites(archive[..i], subtree, zip))
    {
      var e := archive[i];
      ArchiveStep(archive, subtree, zip, i);
      ghost var before := ArchiveWrites(archive[..i], subtree, zip);
      if zip && e.enclosed.None? {
        continue;
      }
      var name := if zip then e.enclosed.value else e.path;
      if !(subtree <= name) || e.isDir {
        continue;
      }
      var relative := name[|subtree|..];
      dest.WriteFile(relative, e.bytes);
      ApplyStep(old(dest.files), before, (relative, e.bytes));
      PathsOne((relative, e.bytes));
      PathsConcat(before, [(relative, e.bytes)]);
    }
    assert archive[..|archive|] == archive;
    sorted := Sort(DisplayAll(dest.copied));
  }

  lemma NothingSelected(archive: seq<ArchiveEntry>, subtree: Names, zip: bool)
    ensures ArchiveWrites(archive[..0], subtree, zip) == [] && Paths([]) == []
  {
  }

  lemma ArchiveStep(archive: seq<ArchiveEntry>, subtree: Names, zip: bool, i: nat)
    requires i < |archive|
    ensures var before, e := ArchiveWrites(archive[..i], subtree, zip), archive[i];
            ArchiveWrites(archive[..i + 1], subtree, zip) ==
            if Selects(e, subtree, zip) then before + [(Relative(e, subtree, zip), e.bytes)] else before
  {
    assert archive[..i + 1][..i] == archive[..i];
  }

  // ---------- where an archive scan writes ----------

  function StepTo(at: Option<Names>, name: string): Option<Names> {
    if at.None? then None
    else if name != ".." then Some(at.value + [name])
    else if at.value == [] then None
    else Some(at.value[..|at.value| - 1])
  }

  /** Where a name leads if each `..` in it is a step up, or None if it leaves the place where it starts. */
  function Land(path: Names): Option<Names> {
    if path == [] then Some([]) else StepTo(Land(path[..|path| - 1]), path[|path| - 1])
  }

  lemma LandNext(path: Names, name: string)
    ensures Land(path + [name]) == StepTo(Land(path), name)
  {
    assert (path + [name])[..|path|] == path;
  }

  /** Followed from the subtree on, the name of an entry never leads out of the subtree. */
  ghost predicate NeverLeaves(path: Names, subtree: Names) {
    forall n | |subtree| <= n <= |path| :: IsWithin(Land(path[..n]), subtree)
  }

  predicate IsWithin(at: Option<Names>, subtree: Names) { at.Some? && subtree <= at.value }

  lemma NeverLeavesNext(path: Names, name: string, subtree: Names)
    requires |subtree| <= |path|
    ensures NeverLeaves(path + [name], subtree) <==>
            NeverLeaves(path, subtree) && IsWithin(Land(path + [name]), subtree)
  {
    hide Land, IsWithin;
    var all := path + [name];
    assert all[..|all|] == all;
    assert forall n | 0 <= n <= |path| :: all[..n] == path[..n];
    if NeverLeaves(all, subtree) {
      forall n | |subtree| <= n <= |path| ensures IsWithin(Land(path[..n]), subtree) {
        assert IsWithin(Land(all[..n]), subtree);
      }
    }
  }

  lemma {:induction false} LandPlain(path: Names)
    requires ".." !in path
    ensures Land(path) == Some(path)
  {
    if path != [] {
      var n := |path| - 1;
      assert path == path[..n] + [path[n]];
      LandPlain(path[..n]);
    }
  }

  /** Inside a subtree a name leads where its part below the subtree leads. */
  lemma {:induction false} LandBelow(subtree: Names, rest: Names)
    requires ".." !in subtree && Land(rest).Some?
    ensures Land(subtree + rest) == Some(subtree + Land(rest).value)
  {
    hide Land, StepTo;
    if rest == [] {
      assert subtree + rest == subtree && subtree + [] == subtree;
      LandPlain(subtree);
      LandPlain([]);
    } else {
      var init, name := rest[..|rest| - 1], rest[|rest| - 1];
      assert rest == init + [name] && subtree + rest == (subtree + init) + [name];
      LandNext(init, name);
      LandNext(subtree + init, name);
      StepFromSome(Land(init), name);
      LandBelow(subtree, init);
      StepBelow(subtree, Land(init).value, name);
    }
  }

  lemma StepFromSome(at: Option<Names>, name: string)
    ensures StepTo(at, name).Some? ==> at.Some?
  {
  }

  lemma StepBelow(subtree: Names, at: Names, name: string)
    requires StepTo(Some(at), name).Some?
    ensures StepTo(Some(subtree + at), name) == Some(subtree + StepTo(Some(at), name).value)
  {
    if name == ".." {
      assert (subtree + at)[..|subtree + at| - 1] == subtree + at[..|at| - 1];
    } else {
      assert (subtree + at) + [name] == subtree + (at + [name]);
    }
  }

  /** A copy stays below the destination exactly if the name of its entry never leaves the subtree. */
  lemma {:induction false} StaysBelow(subtree: Names, rest: Names)
    requires ".." !in subtree
    ensures Land(rest).Some? <==> NeverLeaves(subtree + rest, subtree)
  {
    hide NeverLeaves, Land, StepTo, IsWithin;
    if rest == [] {
      assert subtree + rest == subtree;
      NeverLeavesItself(subtree);
      LandPlain([]);
    } else {
      var init, name := rest[..|rest| - 1], rest[|rest| - 1];
      assert rest == init + [name] && subtree + rest == (subtree + init) + [name];
      StaysBelow(subtree, init);
      NeverLeavesNext(subtree + init, name, subtree);
      LandNext(init, name);
      LandNext(subtree + init, name);
      StepFromSome(Land(init), name);
      if Land(init).Some? {
        LandBelow(subtree, init);
        StepWithin(subtree, Land(init).value, name);
      }
    }
  }

  lemma NeverLeavesItself(subtree: Names)
    requires ".." !in subtree
    ensures NeverLeaves(subtree, subtree)
  {
    LandPlain(subtree);
    assert subtree[..|subtree|] == subtree;
  }

  lemma StepWithin(subtree: Names, at: Names, name: string)
    ensures StepTo(Some(at), name).Some? <==> IsWithin(StepTo(Some(subtree + at), name), subtree)
  {
  }

  /** All that a scan writes stays below the destination if and only if no selected name leaves the subtree;
      a subtree ref holds no `..`. */
  lemma ScanStaysBelow(archive: seq<ArchiveEntry>, subtree: Names, zip: bool)
    requires ".." !in subtree
    ensures (forall w | w in ArchiveWrites(archive, subtree, zip) :: Land(w.0).Some?) <==>
            forall e | e in archive && Selects(e, subtree, zip) :: NeverLeaves(NameIn(e, zip).value, subtree)
  {
    hide NeverLeaves, Land;
    forall e | e in archive && Selects(e, subtree, zip)
      ensures Land(Relative(e, subtree, zip)).Some? <==> NeverLeaves(NameIn(e, zip).value, subtree)
    {
      assert NameIn(e, zip).value == subtree + Relative(e, subtree, zip);
      StaysBelow(subtree, Relative(e, subtree, zip));
    }
    WritesAreSelected(archive, subtree, zip);
  }

  lemma {:induction false} WritesAreSelected(archive: seq<ArchiveEntry>, subtree: Names, zip: bool)
    ensures forall e | e in archive && Selects(e, subtree, zip) ::
              (Relative(e, subtree, zip), e.bytes) in ArchiveWrites(archive, subtree, zip)
    ensures forall w | w in ArchiveWrites(archive, subtree, zip) ::
              exists e | e in archive && Selects(e, subtree, zip) :: w == (Relative(e, subtree, zip), e.bytes)
  {
    if archive != [] {
      var n := |archive| - 1;
      WritesAreSelected(archive[..n], subtree, zip);
      assert archive == archive[..n] + [archive[n]];
    }
  }

  /** In particular a zip scan stays below the destination if the enclosed names it is given hold no `..`. */
  lemma PlainNamesStayBelow(archive: seq<ArchiveEntry>, subtree: Names, zip: bool)
    requires forall e | e in archive && NameIn(e, zip).Some? :: ".." !in NameIn(e, zip).value
    ensures forall w | w in ArchiveWrites(archive, subtree, zip) :: Land(w.0) == Some(w.0)
  {
    hide Land;
    WritesAreSelected(archive, subtree, zip);
    forall w | w in ArchiveWrites(archive, subtree, zip) ensures Land(w.0) == Some(w.0) {
      var e :| e in archive && Selects(e, subtree, zip) && w == (Relative(e, subtree, zip), e.bytes);
      LandPlain(w.0);
    }
  }

  // ---------- which files a directory pack has ----------

  /** No listing has two entries of one name. */
  predicate UniqueNames(entries: seq<Node>)
    decreases entries
  {
    (forall i, j | 0 <= i < j < |entries| :: entries[i].name != entries[j].name) &&
    forall e | e in entries && e.DirNode? :: UniqueNames(e.entries)
  }

  lemma {:induction false} FilesOfPrefix(entries: seq<Node>, prefix: Names, w: Write)
    ensures w in FilesOf(entries, prefix) <==>
            prefix <= w.0 && (w.0[|prefix|..], w.1) in FilesOf(entries, [])
    decreases entries
  {
    if entries != [] {
      var n := |entries| - 1;
      var e := entries[n];
      FilesOfPrefix(entries[..n], prefix, w);
      LongerPrefix(prefix, e.name, w.0);
      assert [] + [e.name] == [e.name];
      if e.DirNode? {
        FilesOfPrefix(e.entries, prefix + [e.name], w);
        if prefix <= w.0 { FilesOfPrefix(e.entries, [e.name], (w.0[|prefix|..], w.1)); }
      }
    }
  }

  lemma LongerPrefix(prefix: Names, name: string, path: Names)
    ensures prefix + [name] <= path <==> prefix <= path && [name] <= path[|prefix|..]
    ensures prefix + [name] == path <==> prefix <= path && [name] == path[|prefix|..]
    ensures prefix + [name] <= path ==> path[|prefix + [name]|..] == path[|prefix|..][1..]
  {
  }

  /** What one named entry contributes. */
  predicate NodeHas(e: Node, rest: Names, bytes: string) {
    match e
    case FileNode(_, b) => rest == [] && b == bytes
    case DirNode(_, es) => (rest, bytes) in FilesOf(es, [])
  }

  lemma {:induction false} FilesByEntry(entries: seq<Node>, w: Write)
    ensures w in FilesOf(entries, []) <==>
            w.0 != [] && exists e | e in entries :: e.name == w.0[0] && NodeHas(e, w.0[1..], w.1)
  {
    if entries != [] {
      var n := |entries| - 1;
      var e := entries[n];
      FilesByEntry(entries[..n], w);
      assert entries == entries[..n] + [e];
      match e
      case FileNode(name, bytes) => assert [] + [name] == w.0 <==> w.0 != [] && name == w.0[0] && w.0[1..] == [];
      case DirNode(name, es) =>
        FilesOfPrefix(es, [] + [name], w);
        assert [] + [name] <= w.0 <==> w.0 != [] && name == w.0[0];
    }
  }

  lemma {:induction false} FindNamed(entries: seq<Node>, name: string)
    ensures match FindNode(entries, name)
            case Some(x) => x in entries && x.name == name
            case None => forall x | x in entries :: x.name != name
  {
    if entries != [] {
      FindNamed(entries[1..], name);
      assert entries == [entries[0]] + entries[1..];
    }
  }

  lemma FindUnique(entries: seq<Node>, e: Node)
    requires forall i, j | 0 <= i < j < |entries| :: entries[i].name != entries[j].name
    ensures FindNode(entries, e.name) == Some(e) <==> e in entries
    ensures var found := FindNode(entries, e.name);
            found.Some? ==> found.value in entries && found.value.name == e.name
    ensures FindNode(entries, e.name) == None ==> forall x | x in entries :: x.name != e.name
  {
    hide FindNode;
    FindNamed(entries, e.name);
    if FindNode(entries, e.name).Some? && e in entries {
      var x := FindNode(entries, e.name).value;
      var i, j :| 0 <= i < |entries| && 0 <= j < |entries| && entries[i] == x && entries[j] == e;
      assert i == j;
    }
  }

  /** The files below a subtree are the files of the whole pack whose path goes through it. */
  lemma {:induction false} FilesBelow(entries: seq<Node>, subtree: Names, rest: Names, bytes: string)
    requires UniqueNames(entries) && !Lookup(entries, subtree).IsFile?
    ensures (rest, bytes) in DirWrites(entries, subtree) <==> (subtree + rest, bytes) in FilesOf(entries, [])
    decreases |subtree|
  {
    hide FilesOf, UniqueNames;
    var path := subtree + rest;
    if subtree == [] {
      assert path == rest;
    } else {
      var name, tail := subtree[0], subtree[1..];
      assert path[0] == name && path[1..] == tail + rest;
      FilesByEntry(entries, (path, bytes));
      UniqueHere(entries);
      FindUnique(entries, FileNode(name, ""));
      match FindNode(entries, name)
      case None =>
      case Some(e) =>
        FindUnique(entries, e);
        assert forall x | x in entries && x.name == name :: x == e by {
          forall x | x in entries && x.name == name ensures x == e { FindUnique(entries, x); }
        }
        match e
        case FileNode(_, _) => assert path[1..] != [];
        case DirNode(_, es) =>
          UniqueBelow(entries, e);
          FilesBelow(es, tail, rest, bytes);
    }
  }

  lemma UniqueHere(entries: seq<Node>)
    requires UniqueNames(entries)
    ensures forall i, j | 0 <= i < j < |entries| :: entries[i].name != entries[j].name
  {
  }

  lemma UniqueBelow(entries: seq<Node>, e: Node)
    requires UniqueNames(entries) && e in entries && e.DirNode?
    ensures UniqueNames(e.entries)
  {
  }

  predicate DistinctPaths(ws: seq<Write>) { forall i, j | 0 <= i < j < |ws| :: ws[i].0 != ws[j].0 }

  lemma {:induction false} FilesAreDistinct(entries: seq<Node>, prefix: Names)
    requires UniqueNames(entries)
    ensures DistinctPaths(FilesOf(entries, prefix))
    decreases entries
  {
    hide FilesOf;
    if entries == [] {
      NoFiles(prefix);
    } else {
      var n := |entries| - 1;
      var e, init := entries[n], entries[..n];
      var a := FilesOf(init, prefix);
      UniqueInit(entries);
      FilesAreDistinct(init, prefix);
      FilesLast(entries, prefix);
      if e.DirNode? {
        UniqueBelow(entries, e);
        FilesAreDistinct(e.entries, prefix + [e.name]);
      }
      var b := LastFiles(e, prefix);
      forall x, y | x in a && y in b ensures x.0 != y.0 { OtherNames(entries, prefix, x, y); }
      DistinctConcat(a, b);
    }
  }

  function LastFiles(e: Node, prefix: Names): seq<Write> {
    match e
    case FileNode(name, bytes) => [(prefix + [name], bytes)]
    case DirNode(name, es) => FilesOf(es, prefix + [name])
  }

  lemma FilesLast(entries: seq<Node>, prefix: Names)
    requires entries != []
    ensures var n := |entries| - 1;
            FilesOf(entries, prefix) == FilesOf(entries[..n], prefix) + LastFiles(entries[n], prefix)
  {
  }

  lemma NoFiles(prefix: Names)
    ensures FilesOf([], prefix) == []
  {
  }

  lemma UniqueInit(entries: seq<Node>)
    requires UniqueNames(entries) && entries != []
    ensures UniqueNames(entries[..|entries| - 1])
  {
    var init := entries[..|entries| - 1];
    assert forall e | e in init :: e in entries;
  }

  lemma OtherNames(entries: seq<Node>, prefix: Names, x: Write, y: Write)
    requires UniqueNames(entries) && entries != []
    requires x in FilesOf(entries[..|entries| - 1], prefix) && y in LastFiles(entries[|entries| - 1], prefix)
    ensures x.0 != y.0
  {
    hide FilesOf;
    var n := |entries| - 1;
    var init, e := entries[..n], entries[n];
    FilesOfPrefix(init, prefix, x);
    FilesByEntry(init, (x.0[|prefix|..], x.1));
    var o :| o in init && o.name == x.0[|prefix|..][0];
    var i :| 0 <= i < n && init[i] == o;
    assert entries[i] == o;
    UniqueHere(entries);
    assert o.name != e.name;
    if e.DirNode? { FilesOfPrefix(e.entries, prefix + [e.name], y); }
    assert prefix + [e.name] <= y.0;
    assert y.0[|prefix|] == (prefix + [e.name])[|prefix|];
  }

  lemma DistinctConcat(a: seq<Write>, b: seq<Write>)
    requires DistinctPaths(a) && DistinctPaths(b) && forall x, y | x in a && y in b :: x.0 != y.0
    ensures DistinctPaths(a + b)
  {
  }

  // ---------- which files an archive has ----------

  /** The regular file entries of an archive. */
  predicate HasEntry(archive: seq<ArchiveEntry>, path: Names, bytes: string) {
    exists e | e in archive :: !e.isDir && e.path == path && e.bytes == bytes
  }

  lemma {:induction false} ArchiveBelow(archive: seq<ArchiveEntry>, subtree: Names, zip: bool, rest: Names,
      bytes: string)
    requires forall e | e in archive :: e.enclosed == Some(e.path)
    ensures (rest, bytes) in ArchiveWrites(archive, subtree, zip) <==> HasEntry(archive, subtree + rest, bytes)
  {
    if archive != [] {
      var n := |archive| - 1;
      var e := archive[n];
      assert archive == archive[..n] + [e];
      ArchiveBelow(archive[..n], subtree, zip, rest, bytes);
      if subtree <= e.path { assert e.path == subtree + e.path[|subtree|..]; }
      assert e.path == subtree + rest ==> subtree <= e.path && e.path[|subtree|..] == rest;
    }
  }

  predicate DistinctEntries(archive: seq<ArchiveEntry>) {
    forall i, j | 0 <= i < j < |archive| && !archive[i].isDir && !archive[j].isDir :: archive[i].path != archive[j].path
  }

  lemma {:induction false} ArchiveIsDistinct(archive: seq<ArchiveEntry>, subtree: Names, zip: bool)
    requires DistinctEntries(archive) && forall e | e in archive :: e.enclosed == Some(e.path)
    ensures DistinctPaths(ArchiveWrites(archive, subtree, zip))
  {
    hide HasEntry, DistinctPaths;
    if archive == [] {
      NothingIsDistinct();
    } else {
      var n := |archive| - 1;
      var e, init := archive[n], archive[..n];
      assert archive == init + [e];
      ArchiveIsDistinct(init, subtree, zip);
      if Selects(e, subtree, zip) {
        var b: seq<Write> := [(e.path[|subtree|..], e.bytes)];
        forall x, y | x in ArchiveWrites(init, subtree, zip) && y in b ensures x.0 != y.0 {
          WritesOtherPath(init, e, subtree, zip, x);
        }
        NothingIsDistinct();
        DistinctConcat(ArchiveWrites(init, subtree, zip), b);
      } else {
        assert ArchiveWrites(init, subtree, zip) + [] == ArchiveWrites(init, subtree, zip);
      }
    }
  }

  lemma NothingIsDistinct()
    ensures DistinctPaths([]) && forall w: Write :: DistinctPaths([w])
  {
  }

  /** A later entry of another path is written elsewhere. */
  lemma WritesOtherPath(init: seq<ArchiveEntry>, e: ArchiveEntry, subtree: Names, zip: bool, x: Write)
    requires DistinctEntries(init + [e]) && forall o | o in init + [e] :: o.enclosed == Some(o.path)
    requires Selects(e, subtree, zip)
    requires x in ArchiveWrites(init, subtree, zip)
    ensures x.0 != e.path[|subtree|..]
  {
    hide ArchiveWrites;
    ArchiveBelow(init, subtree, zip, x.0, x.1);
    var o :| o in init && !o.isDir && o.path == subtree + x.0;
    var i :| 0 <= i < |init| && init[i] == o;
    var archive := init + [e];
    assert archive[i] == o && archive[|init|] == e && archive[i].path != archive[|init|].path;
    assert e.path == subtree + e.path[|subtree|..];
  }

  // ---------- the forms agree ----------

  function Display(p: Names): string {
    if p == [] then "" else if |p| == 1 then p[0] else Display(p[..|p| - 1]) + "/" + p[|p| - 1]
  }

  function DisplayAll(ps: seq<Names>): (r: seq<string>)
    ensures |r| == |ps| && forall i | 0 <= i < |ps| :: r[i] == Display(ps[i])
  {
    if ps == [] then [] else DisplayAll(ps[..|ps| - 1]) + [Display(ps[|ps| - 1])]
  }

  lemma SortNothing()
    ensures Sort(DisplayAll(Paths([]))) == []
  {
  }

  lemma DisplayConcat(a: seq<Names>, b: seq<Names>)
    ensures DisplayAll(a + b) == DisplayAll(a) + DisplayAll(b)
  {
  }

  lemma RemoveOne(init: seq<Names>, x: Names, u: seq<Names>, v: seq<Names>)
    requires multiset(init + [x]) == multiset(u + [x] + v)
    ensures multiset(init) == multiset(u + v)
  {
    var m, k := multiset(init), multiset(u + v);
    assert multiset(u + [x] + v) == multiset(u) + multiset{x} + multiset(v);
    assert m + multiset{x} == k + multiset{x};
    assert m == (m + multiset{x}) - multiset{x} && k == (k + multiset{x}) - multiset{x};
  }

  lemma DisplayOne(x: Names)
    ensures DisplayAll([x]) == [Display(x)]
  {
  }

  lemma DisplaySplit(u: seq<Names>, x: Names, v: seq<Names>)
    ensures multiset(DisplayAll(u + [x] + v)) == multiset(DisplayAll(u + v)) + multiset{Display(x)}
  {
    hide Display, DisplayAll;
    DisplayConcat(u + [x], v);
    DisplayConcat(u, [x]);
    DisplayConcat(u, v);
    DisplayOne(x);
  }

  lemma {:induction false} DisplayPermutation(a: seq<Names>, b: seq<Names>)
    requires multiset(a) == multiset(b)
    ensures multiset(DisplayAll(a)) == multiset(DisplayAll(b))
  {
    hide Display, DisplayAll;
    assert |multiset(a)| == |a| && |multiset(b)| == |b|;
    if a != [] {
      var n := |a| - 1;
      var x, init := a[n], a[..n];
      assert a == init + [x];
      assert x in multiset(b);
      var i :| 0 <= i < |b| && b[i] == x;
      var u, v := b[..i], b[i + 1..];
      assert b == u + [x] + v;
      RemoveOne(init, x, u, v);
      DisplayPermutation(init, u + v);
      DisplaySplit(u, x, v);
      DisplaySplit(init, x, []);
      assert init + [x] + [] == a && init + [] == init;
    }
  }

  lemma {:induction false} PathMembers(ws: seq<Write>, p: Names)
    ensures p in Paths(ws) <==> exists w | w in ws :: w.0 == p
  {
    if p in Paths(ws) {
      var i :| 0 <= i < |ws| && Paths(ws)[i] == p;
      assert ws[i] in ws;
    }
    if w :| w in ws && w.0 == p {
      var i :| 0 <= i < |ws| && ws[i] == w;
      assert Paths(ws)[i] == p;
    }
  }

  lemma {:induction false} DistinctCount(ps: seq<Names>, p: Names)
    requires forall i, j | 0 <= i < j < |ps| :: ps[i] != ps[j]
    ensures multiset(ps)[p] == if p in ps then 1 else 0
  {
    if ps != [] {
      var n := |ps| - 1;
      assert ps == ps[..n] + [ps[n]];
      DistinctCount(ps[..n], p);
      assert ps[n] !in ps[..n];
    }
  }

  /** Lists of distinct paths with the same members are rearrangements of each other. */
  lemma SamePathsPermutation(a: seq<Write>, b: seq<Write>)
    requires DistinctPaths(a) && DistinctPaths(b) && forall w :: w in a <==> w in b
    ensures multiset(Paths(a)) == multiset(Paths(b))
  {
    hide Paths;
    forall p: Names ensures multiset(Paths(a))[p] == multiset(Paths(b))[p] {
      DistinctCount(Paths(a), p);
      DistinctCount(Paths(b), p);
      PathMembers(a, p);
      PathMembers(b, p);
    }
  }

  /** With distinct paths the order of the writes does not matter: each file gets the bytes written. */
  lemma {:induction false} ApplyDistinct(files: map<Names, string>, ws: seq<Write>, p: Names)
    requires DistinctPaths(ws)
    ensures p in Apply(files, ws) <==> p in files || p in Paths(ws)
    ensures forall w | w in ws && w.0 == p :: p in Apply(files, ws) && Apply(files, ws)[p] == w.1
    ensures p in files && p !in Paths(ws) ==> Apply(files, ws)[p] == files[p]
  {
    if ws != [] {
      var n := |ws| - 1;
      assert ws == ws[..n] + [ws[n]];
      ApplyDistinct(files, ws[..n], p);
    }
  }

  lemma SameWritesSameFiles(files: map<Names, string>, a: seq<Write>, b: seq<Write>)
    requires DistinctPaths(a) && DistinctPaths(b) && forall w :: w in a <==> w in b
    ensures Apply(files, a) == Apply(files, b)
  {
    hide Apply, Paths;
    var x, y := Apply(files, a), Apply(files, b);
    forall p: Names ensures (p in x <==> p in y) && (p in x ==> x[p] == y[p]) {
      ApplyDistinct(files, a, p);
      ApplyDistinct(files, b, p);
      PathMembers(a, p);
      PathMembers(b, p);
    }
    assert x.Keys == y.Keys;
  }

  /** A directory pack and an archive pack with the same files, each file once. */
  ghost predicate SamePack(root: seq<Node>, archive: seq<ArchiveEntry>) {
    UniqueNames(root) && DistinctEntries(archive) && (forall e | e in archive :: e.enclosed == Some(e.path)) &&
    forall path, bytes :: (path, bytes) in FilesOf(root, []) <==> HasEntry(archive, path, bytes)
  }

  /** The three forms of a pack agree: whatever the order of listings and entries, and whatever is in
      the destination, they leave the same files there and return the same sorted list. */
  lemma CopiesAgree(root: seq<Node>, archive: seq<ArchiveEntry>, subtree: Names, zip: bool, files: map<Names, string>)
    requires SamePack(root, archive) && !Lookup(root, subtree).IsFile?
    ensures Apply(files, DirWrites(root, subtree)) == Apply(files, ArchiveWrites(archive, subtree, zip))
    ensures Sort(DisplayAll(Paths(DirWrites(root, subtree)))) ==
            Sort(DisplayAll(Paths(ArchiveWrites(archive, subtree, zip))))
  {
    hide Apply, Paths, Sort, DisplayAll, FilesOf, UniqueNames, DistinctEntries, HasEntry;
    var a, b := DirWrites(root, subtree), ArchiveWrites(archive, subtree, zip);
    forall w: Write ensures w in a <==> w in b {
      FilesBelow(root, subtree, w.0, w.1);
      ArchiveBelow(archive, subtree, zip, w.0, w.1);
    }
    ArchiveIsDistinct(archive, subtree, zip);
    LookupIsUnique(root, subtree);
    match Lookup(root, subtree) {
      case IsDir(es) => FilesAreDistinct(es, []);
      case _ =>
    }
    SameWritesSameFiles(files, a, b);
    SamePathsPermutation(a, b);
    DisplayPermutation(Paths(a), Paths(b));
    SortOfPermutation(DisplayAll(Paths(a)), DisplayAll(Paths(b)));
  }

  lemma {:induction false} LookupIsUnique(entries: seq<Node>, path: Names)
    requires UniqueNames(entries)
    ensures Lookup(entries, path).IsDir? ==> UniqueNames(Lookup(entries, path).entries)
    decreases |path|
  {
    hide UniqueNames;
    if path != [] {
      var e := FindNode(entries, path[0]);
      if e.Some? && e.value.DirNode? {
        UniqueHere(entries);
        FindUnique(entries, FileNode(path[0], ""));
        UniqueBelow(entries, e.value);
        LookupIsUnique(e.value.entries, path[1..]);
      }
    }
  }

  /** The copied files are exactly the packaged files under the subtree, with their own bytes. */
  lemma CopiedIsSubtree(root: seq<Node>, subtree: Names, rest: Names)
    requires UniqueNames(root) && !Lookup(root, subtree).IsFile?
    ensures var copied := Apply(map[], DirWrites(root, subtree));
            (rest in copied <==> exists bytes :: (subtree + rest, bytes) in FilesOf(root, [])) &&
            (rest in copied ==> (subtree + rest, copied[rest]) in FilesOf(root, []))
  {
    hide Apply, Paths, FilesOf, UniqueNames;
    var ws := DirWrites(root, subtree);
    LookupIsUnique(root, subtree);
    match Lookup(root, subtree) {
      case IsDir(es) => FilesAreDistinct(es, []);
      case _ =>
    }
    ApplyDistinct(map[], ws, rest);
    PathMembers(ws, rest);
    forall bytes ensures (rest, bytes) in ws <==> (subtree + rest, bytes) in FilesOf(root, []) {
      FilesBelow(root, subtree, rest, bytes);
    }
    if rest in Apply(map[], ws) {
      var w :| w in ws && w.0 == rest;
      assert w == (rest, w.1);
    }
    if bytes :| (subtree + rest, bytes) in FilesOf(root, []) {
      assert (rest, bytes) in ws;
    }
  }
}
