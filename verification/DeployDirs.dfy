/** The search for the newest deploy directory (src/admin_access.rs): a depth-first walk with an explicit
    stack over each existing root. */
module DeployDirs {
  import opened Wrappers

  /** A directory: its path, the modification time of its terraform-outputs.json if that is a file, and
      its subdirectories in listing order. */
  datatype Directory = Directory(path: string, outputs: Option<nat>, subdirs: seq<Directory>)

  function Size(d: Directory): nat { 1 + Sizes(d, d.subdirs) }

  /** The size of some of the subdirectories of d. */
  function Sizes(d: Directory, ds: seq<Directory>): nat
    requires forall x | x in ds :: x in d.subdirs
    decreases d, |ds|
  {
    if ds == [] then 0
    else
      assert ds[|ds| - 1] in d.subdirs;
      Sizes(d, ds[..|ds| - 1]) + Size(ds[|ds| - 1])
  }

  function StackSize(stack: seq<Directory>): nat {
    if stack == [] then 0 else StackSize(stack[..|stack| - 1]) + Size(stack[|stack| - 1])
  }

  lemma {:induction false} StackSizeConcat(a: seq<Directory>, b: seq<Directory>)
    ensures StackSize(a + b) == StackSize(a) + StackSize(b)
  {
    if b == [] {
      assert a + b == a;
    } else {
      assert (a + b)[..|a + b| - 1] == a + b[..|b| - 1];
      StackSizeConcat(a, b[..|b| - 1]);
    }
  }

  lemma {:induction false} SizesIsStackSize(d: Directory, ds: seq<Directory>)
    requires forall x | x in ds :: x in d.subdirs
    ensures Sizes(d, ds) == StackSize(ds)
    decreases |ds|
  {
    if ds != [] { SizesIsStackSize(d, ds[..|ds| - 1]); }
  }

  lemma PopPush(stack: seq<Directory>)
    requires stack != []
    ensures var n := |stack| - 1; StackSize(stack[..n] + stack[n].subdirs) + 1 == StackSize(stack)
  {
    var n := |stack| - 1;
    StackSizeConcat(stack[..n], stack[n].subdirs);
    SizesIsStackSize(stack[n], stack[n].subdirs);
  }

  /** The directories looked at, in order: all subdirectories of the popped one, and then the rest. */
  function Visited(stack: seq<Directory>): seq<Directory>
    decreases StackSize(stack)
  {
    if stack == [] then []
    else
      var n := |stack| - 1;
      PopPush(stack);
      stack[n].subdirs + Visited(stack[..n] + stack[n].subdirs)
  }

  function VisitedAll(roots: seq<Directory>): seq<Directory> {
    if roots == [] then [] else VisitedAll(roots[..|roots| - 1]) + Visited([roots[|roots| - 1]])
  }

  /** The newest of some directories; an equally new later one does not replace it. */
  function Newest(ds: seq<Directory>): Option<Directory> {
    if ds == [] then None
    else
      var best, d := Newest(ds[..|ds| - 1]), ds[|ds| - 1];
      if d.outputs.None? then best
      else if best.Some? && best.value.outputs.Some? && d.outputs.value <= best.value.outputs.value then best
      else Some(d)
  }

  method ResolveLatestDeployDir(roots: seq<Directory>) returns (latest: Option<Directory>)
    ensures latest == Newest(VisitedAll(roots))
  {
    hide Visited, Newest;
    latest := None;
    ghost var seen: seq<Directory> := [];
    NewestNothing();
    for r := 0 to |roots|
      invariant seen == VisitedAll(roots[..r])
      invariant latest == Newest(seen)
    {
      assert roots[..r + 1][..r] == roots[..r];
      var stack := [roots[r]];
      ghost var start := seen;
      while stack != []
        invariant start + Visited([roots[r]]) == seen + Visited(stack)
        invariant latest == Newest(seen)
        decreases StackSize(stack)
      {
        PopPush(stack);
        VisitedStep(stack);
        var dir := stack[|stack| - 1];
        ghost var rest := stack[..|stack| - 1];
        ghost var base := seen;
        stack := stack[..|stack| - 1];
        for i := 0 to |dir.subdirs|
          invariant stack == rest + dir.subdirs[..i]
          invariant seen == base + dir.subdirs[..i]
          invariant latest == Newest(seen)
        {
          var path := dir.subdirs[i];
          NewestStep(seen, path);
          assert base + dir.subdirs[..i + 1] == base + dir.subdirs[..i] + [path];
          seen := seen + [path];
          if path.outputs.Some? {
            var modified := path.outputs.value;
            if latest.Some? && latest.value.outputs.Some? && modified <= latest.value.outputs.value {
            } else {
              latest := Some(path);
            }
          }
          assert rest + dir.subdirs[..i + 1] == rest + dir.subdirs[..i] + [path];
          stack := stack + [path];
        }
        assert dir.subdirs[..|dir.subdirs|] == dir.subdirs;
      }
      VisitedNothing();
      assert seen == start + Visited([roots[r]]);
    }
    assert roots[..|roots|] == roots;
  }

  lemma NewestNothing()
    ensures Newest([]) == None
  {
  }

  lemma VisitedNothing()
    ensures Visited([]) == []
  {
  }

  lemma VisitedStep(stack: seq<Directory>)
    requires stack != []
    ensures var n := |stack| - 1; Visited(stack) == stack[n].subdirs + Visited(stack[..n] + stack[n].subdirs)
  {
  }

  lemma NewestStep(ds: seq<Directory>, d: Directory)
    ensures Newest(ds + [d]) ==
            var best := Newest(ds);
            if d.outputs.None? then best
            else if best.Some? && best.value.outputs.Some? && d.outputs.value <= best.value.outputs.value then best
            else Some(d)
  {
    assert (ds + [d])[..|ds|] == ds;
  }

  // ---------- what is visited ----------

  predicate Below(d: Directory, x: Directory)
    decreases d
  {
    exists c | c in d.subdirs :: c == x || Below(c, x)
  }

  predicate BelowAny(ds: seq<Directory>, x: Directory) { exists d | d in ds :: Below(d, x) }

  lemma BelowAnySplit(a: seq<Directory>, d: Directory, x: Directory)
    ensures BelowAny(a + [d], x) <==> BelowAny(a, x) || Below(d, x)
  {
    assert d in a + [d];
    if BelowAny(a, x) {
      var y :| y in a && Below(y, x);
      assert y in a + [d];
    }
  }

  lemma BelowAnyConcat(a: seq<Directory>, b: seq<Directory>, x: Directory)
    ensures BelowAny(a + b, x) <==> BelowAny(a, x) || BelowAny(b, x)
  {
    hide Below;
    if y :| y in a && Below(y, x) { assert y in a + b; }
    if y :| y in b && Below(y, x) { assert y in a + b; }
  }

  /** The walk looks at exactly the strict descendants of what is on the stack. */
  lemma {:induction false} VisitedIsBelow(stack: seq<Directory>, x: Directory)
    ensures x in Visited(stack) <==> BelowAny(stack, x)
    decreases StackSize(stack)
  {
    hide Visited, Below;
    if stack == [] {
      VisitedNothing();
    } else {
      var n := |stack| - 1;
      var rest, d := stack[..n], stack[n];
      assert stack == rest + [d];
      VisitedStep(stack);
      PopPush(stack);
      VisitedIsBelow(rest + d.subdirs, x);
      BelowAnySplit(rest, d, x);
      BelowAnyConcat(rest, d.subdirs, x);
      BelowUnfold(d, x);
    }
  }

  lemma BelowUnfold(d: Directory, x: Directory)
    ensures Below(d, x) <==> x in d.subdirs || BelowAny(d.subdirs, x)
  {
  }

  lemma {:induction false} VisitedAllIsBelow(roots: seq<Directory>, x: Directory)
    ensures x in VisitedAll(roots) <==> BelowAny(roots, x)
  {
    hide Visited, Below;
    if roots != [] {
      var n := |roots| - 1;
      assert roots == roots[..n] + [roots[n]];
      VisitedAllIsBelow(roots[..n], x);
      VisitedIsBelow([roots[n]], x);
      BelowAnySplit(roots[..n], roots[n], x);
      BelowAnySplit([], roots[n], x);
      assert [] + [roots[n]] == [roots[n]];
    }
  }

  // ---------- which one wins ----------

  /** Position i holds an outputs file; nothing is newer, and nothing before it is as new. */
  ghost predicate IsFirstNewest(ds: seq<Directory>, i: int) {
    0 <= i < |ds| && ds[i].outputs.Some? &&
    (forall j | 0 <= j < |ds| && ds[j].outputs.Some? :: ds[j].outputs.value <= ds[i].outputs.value) &&
    (forall j | 0 <= j < i && ds[j].outputs.Some? :: ds[j].outputs.value < ds[i].outputs.value)
  }

  /** The result is the first among the newest, and there is none exactly when there is no outputs file. */
  lemma {:induction false} NewestIsFirstMaximum(ds: seq<Directory>)
    ensures Newest(ds) == None <==> forall i | 0 <= i < |ds| :: ds[i].outputs == None
    ensures Newest(ds).Some? ==> exists i | 0 <= i < |ds| :: IsFirstNewest(ds, i) && ds[i] == Newest(ds).value
  {
    hide IsFirstNewest;
    if ds != [] {
      var n := |ds| - 1;
      var init, d := ds[..n], ds[n];
      NewestIsFirstMaximum(init);
      assert forall j | 0 <= j < n :: ds[j] == init[j];
      if Newest(init).Some? {
        var i :| 0 <= i < n && IsFirstNewest(init, i) && init[i] == Newest(init).value;
        FirstNewestGrows(init, d, i);
        assert ds == init + [d];
      } else if d.outputs.Some? {
        OnlyNewest(ds, n);
      }
    }
  }

  lemma FirstNewestGrows(init: seq<Directory>, d: Directory, i: int)
    requires 0 <= i < |init|
    requires IsFirstNewest(init, i)
    ensures i < |init| && init[i].outputs.Some?
    ensures if d.outputs.Some? && d.outputs.value > init[i].outputs.value then IsFirstNewest(init + [d], |init|)
            else IsFirstNewest(init + [d], i)
  {
  }

  lemma OnlyNewest(ds: seq<Directory>, n: nat)
    requires n == |ds| - 1 && ds[n].outputs.Some? && forall j | 0 <= j < n :: ds[j].outputs == None
    ensures IsFirstNewest(ds, n)
  {
  }

  lemma NewestBounds(ds: seq<Directory>)
    ensures match Newest(ds)
            case None => forall x | x in ds :: x.outputs == None
            case Some(r) =>
              r in ds && r.outputs.Some? && forall x | x in ds && x.outputs.Some? :: x.outputs.value <= r.outputs.value
  {
    NewestIsFirstMaximum(ds);
    hide Newest;
    if Newest(ds).Some? {
      var i :| 0 <= i < |ds| && IsFirstNewest(ds, i) && ds[i] == Newest(ds).value;
    }
  }

  /** The result over all roots: a strict descendant of some root with an outputs file that is newest
      among all of them, or nothing exactly when no descendant has one. */
  lemma LatestIsNewestBelow(roots: seq<Directory>)
    ensures match Newest(VisitedAll(roots))
            case None => forall x | BelowAny(roots, x) :: x.outputs == None
            case Some(r) =>
              BelowAny(roots, r) && r.outputs.Some? &&
              forall x | BelowAny(roots, x) && x.outputs.Some? :: x.outputs.value <= r.outputs.value
  {
    hide Newest, VisitedAll, BelowAny;
    NewestBounds(VisitedAll(roots));
    forall x ensures x in VisitedAll(roots) <==> BelowAny(roots, x) { VisitedAllIsBelow(roots, x); }
  }

  /** Looking again at directories that were already looked at changes nothing. */
  lemma {:induction false} NewestRepeats(ds: seq<Directory>, again: seq<Directory>)
    requires forall d | d in again :: d in ds
    ensures Newest(ds + again) == Newest(ds)
  {
    hide Newest;
    if again == [] {
      assert ds + again == ds;
    } else {
      var n := |again| - 1;
      NewestRepeats(ds, again[..n]);
      assert ds + again == (ds + again[..n]) + [again[n]];
      NewestStep(ds + again[..n], again[n]);
      NewestBounds(ds);
      assert again[n] in ds;
    }
  }

  /** A later root that lies below an earlier one, or is one again, has no influence on the result. */
  lemma CoveredRootIsIgnored(roots: seq<Directory>, root: Directory)
    requires root in roots || BelowAny(roots, root)
    ensures Newest(VisitedAll(roots + [root])) == Newest(VisitedAll(roots))
  {
    hide Newest, Visited, Below;
    assert (roots + [root])[..|roots|] == roots;
    forall d | d in Visited([root]) ensures d in VisitedAll(roots) {
      VisitedIsBelow([root], d);
      VisitedAllIsBelow(roots, d);
      if root in roots {
        assert Below(root, d);
      } else {
        var r :| r in roots && Below(r, root);
        BelowTransitive(r, root, d);
      }
    }
    NewestRepeats(VisitedAll(roots), Visited([root]));
  }

  lemma {:induction false} BelowTransitive(a: Directory, b: Directory, c: Directory)
    requires Below(a, b) && Below(b, c)
    ensures Below(a, c)
    decreases a
  {
    var x :| x in a.subdirs && (x == b || Below(x, b));
    if x != b { BelowTransitive(x, b, c); }
  }

  function Times(d: Option<Directory>): Option<nat> { if d.Some? then d.value.outputs else None }

  /** An earlier root that lies below another one, or is one again, may decide which of several equally new
      directories is found, but never how new it is. */
  lemma CoveredRootKeepsTime(before: seq<Directory>, root: Directory, after: seq<Directory>)
    requires root in before + after || BelowAny(before + after, root)
    ensures Times(Newest(VisitedAll(before + [root] + after))) == Times(Newest(VisitedAll(before + after)))
  {
    hide Newest, VisitedAll, Below;
    var all, rest := before + [root] + after, before + after;
    forall x ensures BelowAny(all, x) <==> BelowAny(rest, x) {
      SameDescendants(before, root, after, x);
    }
    LatestIsNewestBelow(all);
    LatestIsNewestBelow(rest);
  }

  lemma SameDescendants(before: seq<Directory>, root: Directory, after: seq<Directory>, x: Directory)
    requires root in before + after || BelowAny(before + after, root)
    ensures BelowAny(before + [root] + after, x) <==> BelowAny(before + after, x)
  {
    hide Below;
    var all, rest := before + [root] + after, before + after;
    assert forall r :: r in all <==> r == root || r in rest;
    if Below(root, x) && root !in rest {
      var r :| r in rest && Below(r, root);
      BelowTransitive(r, root, x);
    }
  }

  /** With a deeper root first, as the ancestors of a bundle are listed, a directory of the deeper root wins
      a tie that it loses when the outer root is searched alone. */
  lemma DeeperRootWinsTie()
    ensures var x, y := Directory("x", Some(1), []), Directory("y", Some(1), []);
            var deep := Directory("deep", None, [x]);
            var outer := Directory("outer", None, [deep, y]);
            Newest(VisitedAll([deep, outer])) == Some(x) && Newest(VisitedAll([outer])) == Some(y)
  {
    var x, y := Directory("x", Some(1), []), Directory("y", Some(1), []);
    var deep := Directory("deep", None, [x]);
    var outer := Directory("outer", None, [deep, y]);
    hide VisitedAll, Newest;
    TieVisited(x, y, deep, outer);
    TieNewest(x, y, deep);
  }

  lemma TieVisited(x: Directory, y: Directory, deep: Directory, outer: Directory)
    requires x.subdirs == [] && y.subdirs == [] && deep.subdirs == [x] && outer.subdirs == [deep, y]
    ensures VisitedAll([deep, outer]) == [x, deep, y, x] && VisitedAll([outer]) == [deep, y, x]
  {
    hide Visited;
    VisitedNothing();
    VisitedPush([], x);
    VisitedPush([], deep);
    VisitedPush([deep], y);
    VisitedPush([], outer);
    assert [] + x.subdirs == [] && [] + deep.subdirs == [x] && [deep] + y.subdirs == [deep];
    assert [] + outer.subdirs == [deep] + [y];
    assert Visited([x]) == [] && Visited([deep]) == [x] && Visited([outer]) == [deep, y, x];
    assert [deep, outer][..1] == [deep] && [deep][..0] == [] && [outer][..0] == [];
    assert VisitedAll([deep]) == [x];
  }

  lemma TieNewest(x: Directory, y: Directory, deep: Directory)
    requires x.outputs == Some(1) && y.outputs == Some(1) && deep.outputs == None
    ensures Newest([x, deep, y, x]) == Some(x) && Newest([deep, y, x]) == Some(y)
  {
    hide Newest;
    NewestNothing();
    NewestStep([], x);
    NewestStep([x], deep);
    NewestStep([x, deep], y);
    NewestStep([x, deep, y], x);
    NewestStep([], deep);
    NewestStep([deep], y);
    NewestStep([deep, y], x);
    assert [] + [x] == [x] && [x] + [deep] == [x, deep] && [x, deep] + [y] == [x, deep, y];
    assert [] + [deep] == [deep] && [deep] + [y] == [deep, y] && [deep, y] + [x] == [deep, y, x];
    assert [x, deep, y] + [x] == [x, deep, y, x];
  }

  lemma VisitedPush(stack: seq<Directory>, d: Directory)
    ensures Visited(stack + [d]) == d.subdirs + Visited(stack + d.subdirs)
    ensures stack == [] ==> stack + [d] == [d]
  {
    hide Visited;
    VisitedStep(stack + [d]);
    assert (stack + [d])[..|stack|] == stack;
  }
}
