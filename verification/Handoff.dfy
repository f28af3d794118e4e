/** Handoff assets: what is materialised for a deployment target, and what the status command later
    finds (src/apply.rs). A file is named by the components of its path below the deploy directory. */
module Handoff {
  import opened Wrappers
  import Materialize

  type Provider = Materialize.Provider

  type Names = seq<string>

  datatype Target = Terraform | K8sRaw | Operator | Helm | Serverless | Snap | JujuMachine | JujuK8s

  // ---------- three chains over the same configuration ----------

  predicate UsesTerraform(p: Provider, strategy: string) {
    (p.Generic? && strategy == "terraform") || (p.IsCloud() && strategy == "iac-only")
  }

  /** `materialize_adapter_handoff_assets` */
  function MaterializedTarget(p: Provider, s: string): Option<Target> {
    if UsesTerraform(p, s) then Some(Terraform)
    else if p.K8s? && s == "raw-manifests" then Some(K8sRaw)
    else if p.K8s? && s == "operator" then Some(Operator)
    else if p.K8s? && s == "helm" then Some(Helm)
    else if p.Generic? && s == "serverless-container" then Some(Serverless)
    else if p.Local? && s == "snap" then Some(Snap)
    else if p.Local? && s == "juju-machine" then Some(JujuMachine)
    else if p.K8s? && s == "juju-k8s" then Some(JujuK8s)
    else None
  }

  /** The status chain and the local execution chain of `synthesize_local_execution_outcome`. */
  function StatusTarget(p: Provider, s: string): Option<Target> {
    if UsesTerraform(p, s) then Some(Terraform)
    else if p.K8s? && s == "operator" then Some(Operator)
    else if p.K8s? && s == "raw-manifests" then Some(K8sRaw)
    else if p.K8s? && s == "helm" then Some(Helm)
    else if p.Generic? && s == "serverless-container" then Some(Serverless)
    else if p.Local? && s == "snap" then Some(Snap)
    else if p.Local? && s == "juju-machine" then Some(JujuMachine)
    else if p.K8s? && s == "juju-k8s" then Some(JujuK8s)
    else None
  }

  /** The configuration a target stands for. */
  predicate Selects(p: Provider, s: string, t: Target) {
    match t
    case Terraform => UsesTerraform(p, s)
    case K8sRaw => p.K8s? && s == "raw-manifests"
    case Operator => p.K8s? && s == "operator"
    case Helm => p.K8s? && s == "helm"
    case Serverless => p.Generic? && s == "serverless-container"
    case Snap => p.Local? && s == "snap"
    case JujuMachine => p.Local? && s == "juju-machine"
    case JujuK8s => p.K8s? && s == "juju-k8s"
  }

  /** The chains test in different orders and still agree: no configuration selects two targets. */
  lemma ChainsAgree(p: Provider, s: string)
    ensures MaterializedTarget(p, s) == StatusTarget(p, s)
    ensures forall t :: Selects(p, s, t) <==> MaterializedTarget(p, s) == Some(t)
  {
    StrategiesDiffer();
  }

  lemma StrategiesDiffer()
    ensures "operator" != "raw-manifests" && "operator" != "helm" && "operator" != "juju-k8s"
    ensures "raw-manifests" != "helm" && "raw-manifests" != "juju-k8s" && "helm" != "juju-k8s"
    ensures "terraform" != "serverless-container" && "snap" != "juju-machine"
  {
    assert |"operator"| == 8 && |"raw-manifests"| == 13 && |"helm"| == 4 && |"juju-k8s"| == 8;
    assert "operator"[0] == 'o' && "juju-k8s"[0] == 'j';
    assert |"terraform"| == 9 && |"serverless-container"| == 20 && |"snap"| == 4 && |"juju-machine"| == 12;
  }

  // ---------- the deploy directory ----------

  /** The files below the deploy directory, and the script list of terraform-runtime.json if written. */
  datatype DeployDir = DeployDir(files: set<Names>, runtimeScripts: Option<seq<string>>)

  /** `Path::exists`: a file is there, or a directory with something in it. */
  predicate Exists(files: set<Names>, p: Names) { exists f | f in files :: p <= f }

  function Under(base: string, files: set<Names>): set<Names> { set f | f in files :: [base] + f }

  /** What a materialiser does: it takes one file or a whole directory of the pack to a place below the
      deploy directory, and writes files of its own, here in the order of its statements. */
  datatype Kit =
    | AssetKit(asset: Names, target: Names, written: seq<Names>)
    | SubtreeKit(subtree: string, base: string, written: seq<Names>)

  /** The seven materialisers beside terraform's, each from its own function. */
  function KitOf(t: Target): Kit
    requires !t.Terraform?
  {
    match t
    case K8sRaw =>
      AssetKit(["assets", "examples", "rendered-manifests.yaml"], ["k8s", "rendered-manifests.yaml"],
               [["kubectl-apply.sh"], ["kubectl-delete.sh"], ["kubectl-status.sh"], ["k8s-handoff.txt"]])
    case Helm =>
      SubtreeKit("chart", "helm-chart",
                 [["helm-upgrade.sh"], ["helm-rollback.sh"], ["helm-status.sh"], ["helm-handoff.txt"]])
    case Operator =>
      AssetKit(["assets", "examples", "rendered-manifests.yaml"], ["operator", "rendered-manifests.yaml"],
               [["operator-apply.sh"], ["operator-delete.sh"], ["operator-status.sh"], ["operator-handoff.txt"]])
    case Serverless =>
      AssetKit(["assets", "examples", "deployment-descriptor.json"], ["serverless", "deployment-descriptor.json"],
               [["serverless-deploy.sh"], ["serverless-status.sh"], ["serverless-destroy.sh"],
                ["serverless-handoff.txt"]])
    case Snap =>
      SubtreeKit("snap", "snap",
                 [["snap-install.sh"], ["snap-remove.sh"], ["snap-status.sh"], ["snap-handoff.txt"]])
    case JujuMachine =>
      SubtreeKit("charm", "juju-machine-charm",
                 [["juju-machine-deploy.sh"], ["juju-machine-remove.sh"], ["juju-machine-status.sh"],
                  ["juju-machine-handoff.txt"]])
    case JujuK8s =>
      SubtreeKit("charm", "juju-k8s-charm",
                 [["juju-k8s-deploy.sh"], ["juju-k8s-remove.sh"], ["juju-k8s-status.sh"], ["juju-k8s-handoff.txt"]])
  }

  /** The files that the terraform materialiser writes of its own, in the order of its statements. */
  function TerraformWritten(p: Provider): seq<Names> {
    [["terraform-init.sh"], ["terraform-plan.sh"], ["terraform-apply.sh"], ["terraform-destroy.sh"],
     ["terraform-status.sh"]] +
    (if p.Aws? then [["terraform-aws-cleanup.sh"]] else []) +
    [["terraform-runtime.json"], ["terraform-handoff.txt"]]
  }

  /** The scripts that it lists in terraform-runtime.json. */
  function TerraformScripts(p: Provider): seq<string> {
    ["terraform-init.sh", "terraform-plan.sh", "terraform-apply.sh", "terraform-destroy.sh", "terraform-status.sh"] +
    (if p.Aws? then ["terraform-aws-cleanup.sh"] else [])
  }

  /** The files of the pack below one of its directories. */
  function Subtree(pack: set<Names>, name: string): set<Names> {
    set f | f in pack && |f| > 1 && f[0] == name :: f[1..]
  }

  function Files(ps: seq<Names>): set<Names> { set p | p in ps }

  datatype HandoffResult = Failed | Materialized(dir: DeployDir)

  /** Materialising one target. Rewriting the terraform root may fail, or may add more files below it. */
  function MaterializeHandoff(
    t: Target, p: Provider, pack: set<Names>, dir: DeployDir, rewriteOk: bool, extra: set<Names>): HandoffResult
  {
    if t.Terraform? then
      var copied := Subtree(pack, "terraform");
      if copied == {} then Materialized(dir)
      else if !rewriteOk then Failed
      else
        Materialized(DeployDir(
          dir.files + Under("terraform", copied + extra) + Files(TerraformWritten(p)), Some(TerraformScripts(p))))
    else
      match KitOf(t)
      case AssetKit(asset, target, written) =>
        if asset !in pack then Failed
        else Materialized(dir.(files := dir.files + {target} + Files(written)))
      case SubtreeKit(subtree, base, written) =>
        var copied := Subtree(pack, subtree);
        if copied == {} then Materialized(dir)
        else Materialized(dir.(files := dir.files + Under(base, copied) + Files(written)))
  }

  // ---------- status ----------

  datatype Status = NoHandoff | Incomplete | Ready

  /** What a branch of the status chain hands to `synthesize_scripted_handoff_status`. */
  datatype Checklist = Checklist(note: Names, checks: seq<Names>)

  /** The seven scripted branches of the status chain, each from its own statement. */
  function ChecklistOf(t: Target): Checklist
    requires !t.Terraform?
  {
    match t
    case Operator =>
      Checklist(["operator-handoff.txt"],
                [["operator", "rendered-manifests.yaml"], ["operator-apply.sh"], ["operator-delete.sh"],
                 ["operator-status.sh"]])
    case K8sRaw =>
      Checklist(["k8s-handoff.txt"],
                [["k8s", "rendered-manifests.yaml"], ["kubectl-apply.sh"], ["kubectl-delete.sh"],
                 ["kubectl-status.sh"]])
    case Helm =>
      Checklist(["helm-handoff.txt"],
                [["helm-chart", "Chart.yaml"], ["helm-upgrade.sh"], ["helm-rollback.sh"], ["helm-status.sh"]])
    case Serverless =>
      Checklist(["serverless-handoff.txt"],
                [["serverless", "deployment-descriptor.json"], ["serverless-deploy.sh"], ["serverless-destroy.sh"],
                 ["serverless-status.sh"]])
    case Snap =>
      Checklist(["snap-handoff.txt"],
                [["snap", "fetch", "snapcraft.yaml"], ["snap", "embedded", "snapcraft.yaml"], ["snap-install.sh"],
                 ["snap-remove.sh"], ["snap-status.sh"]])
    case JujuMachine =>
      Checklist(["juju-machine-handoff.txt"],
                [["juju-machine-charm", "charmcraft.yaml"], ["juju-machine-deploy.sh"], ["juju-machine-remove.sh"],
                 ["juju-machine-status.sh"]])
    case JujuK8s =>
      Checklist(["juju-k8s-handoff.txt"],
                [["juju-k8s-charm", "charmcraft.yaml"], ["juju-k8s-deploy.sh"], ["juju-k8s-remove.sh"],
                 ["juju-k8s-status.sh"]])
  }

  predicate AllExist(files: set<Names>, ps: seq<Names>) { forall i | 0 <= i < |ps| :: Exists(files, ps[i]) }

  function Singles(names: seq<string>): (r: seq<Names>)
    ensures |r| == |names| && forall i | 0 <= i < |names| :: r[i] == [names[i]]
  {
    if names == [] then [] else Singles(names[..|names| - 1]) + [[names[|names| - 1]]]
  }

  /** `synthesize_scripted_handoff_status`: the state, and the files that are reported. */
  method ScriptedStatus(dir: DeployDir, note: Names, checks: seq<Names>) returns (status: Status, outputs: seq<Names>)
    ensures status == if !Exists(dir.files, note) then NoHandoff
                      else if AllExist(dir.files, checks) then Ready else Incomplete
    ensures status != NoHandoff ==>
              outputs != [] && outputs[0] == note &&
              forall p :: p in outputs[1..] <==> p in checks && p in dir.files
  {
    hide Exists;
    if !Exists(dir.files, note) {
      return NoHandoff, [];
    }
    var ready := true;
    outputs := [note];
    for i := 0 to |checks|
      invariant ready <==> AllExist(dir.files, checks[..i])
      invariant outputs != [] && outputs[0] == note
      invariant forall p :: p in outputs[1..] <==> p in checks[..i] && p in dir.files
    {
      ghost var before := outputs;
      AllExistStep(dir.files, checks, i);
      assert checks[..i + 1] == checks[..i] + [checks[i]];
      var present := Exists(dir.files, checks[i]);
      ready := ready && present;
      if checks[i] in dir.files {
        outputs := outputs + [checks[i]];
        assert outputs[1..] == before[1..] + [checks[i]];
      }
    }
    assert checks[..|checks|] == checks;
    status := if ready then Ready else Incomplete;
  }

  lemma AllExistStep(files: set<Names>, checks: seq<Names>, i: nat)
    requires i < |checks|
    ensures AllExist(files, checks[..i + 1]) <==> AllExist(files, checks[..i]) && Exists(files, checks[i])
  {
    hide Exists;
    assert checks[..i + 1][i] == checks[i];
    assert forall j | 0 <= j < i :: checks[..i + 1][j] == checks[..i][j];
  }

  function StatusOf(t: Target, dir: DeployDir): Status {
    if t.Terraform? then
      match dir.runtimeScripts
      case None => NoHandoff
      case Some(scripts) =>
        if Exists(dir.files, ["terraform"]) && AllExist(dir.files, Singles(scripts)) then Ready else Incomplete
    else
      var l := ChecklistOf(t);
      if !Exists(dir.files, l.note) then NoHandoff
      else if AllExist(dir.files, l.checks) then Ready else Incomplete
  }

  // ---------- the two tables agree ----------

  /** A checked path below the directory to which a subtree is copied: only the pack can supply it. */
  predicate IsContent(k: Kit, check: Names) { k.SubtreeKit? && |check| > 1 && check[0] == k.base }

  /** What the status branch of a target looks for is what its materialiser leaves: the note, every file
      it writes besides, and either the copied asset or files of the copied subtree. And every script that
      is written is looked for. */
  predicate Agree(k: Kit, l: Checklist) {
    l.note in k.written && (forall f | f in k.written :: |f| == 1) &&
    (forall f | f in k.written && f != l.note :: f in l.checks) &&
    (forall c | c in l.checks :: c in k.written || (k.AssetKit? && c == k.target) || IsContent(k, c)) &&
    (if k.AssetKit? then k.target in l.checks else exists c | c in l.checks :: IsContent(k, c))
  }

  /** Two tables agree if the last three checks are the three files written before the note, in some order,
      and the checks before them are what is copied. */
  lemma AgreeFrom(k: Kit, l: Checklist, n: nat, x: nat, y: nat, z: nat)
    requires n > 0 && |l.checks| == n + 3 && |k.written| == 4 && {x, y, z} == {0, 1, 2}
    requires forall i | 0 <= i < 4 :: |k.written[i]| == 1
    requires l.note == k.written[3] && l.checks[n] == k.written[x]
    requires l.checks[n + 1] == k.written[y] && l.checks[n + 2] == k.written[z]
    requires forall i | 0 <= i < n :: if k.AssetKit? then l.checks[i] == k.target else IsContent(k, l.checks[i])
    ensures Agree(k, l)
  {
    hide IsContent;
    forall f | f in k.written && f != l.note ensures f in l.checks {
      var i :| 0 <= i < 4 && k.written[i] == f;
      assert i in {x, y, z};
    }
    assert l.checks[0] in l.checks;
  }

  lemma K8sRawAgrees()
    ensures Agree(KitOf(K8sRaw), ChecklistOf(K8sRaw))
  {
    hide Agree;
    AgreeFrom(KitOf(K8sRaw), ChecklistOf(K8sRaw), 1, 0, 1, 2);
  }

  lemma HelmAgrees()
    ensures Agree(KitOf(Helm), ChecklistOf(Helm))
  {
    hide Agree;
    AgreeFrom(KitOf(Helm), ChecklistOf(Helm), 1, 0, 1, 2);
  }

  lemma OperatorAgrees()
    ensures Agree(KitOf(Operator), ChecklistOf(Operator))
  {
    hide Agree;
    AgreeFrom(KitOf(Operator), ChecklistOf(Operator), 1, 0, 1, 2);
  }

  lemma ServerlessAgrees()
    ensures Agree(KitOf(Serverless), ChecklistOf(Serverless))
  {
    hide Agree;
    AgreeFrom(KitOf(Serverless), ChecklistOf(Serverless), 1, 0, 2, 1);
  }

  lemma SnapAgrees()
    ensures Agree(KitOf(Snap), ChecklistOf(Snap))
  {
    hide Agree;
    AgreeFrom(KitOf(Snap), ChecklistOf(Snap), 2, 0, 1, 2);
  }

  lemma JujuMachineAgrees()
    ensures Agree(KitOf(JujuMachine), ChecklistOf(JujuMachine))
  {
    hide Agree;
    AgreeFrom(KitOf(JujuMachine), ChecklistOf(JujuMachine), 1, 0, 1, 2);
  }

  lemma JujuK8sAgrees()
    ensures Agree(KitOf(JujuK8s), ChecklistOf(JujuK8s))
  {
    hide Agree;
    AgreeFrom(KitOf(JujuK8s), ChecklistOf(JujuK8s), 1, 0, 1, 2);
  }

  lemma TablesAgree(t: Target)
    requires !t.Terraform?
    ensures Agree(KitOf(t), ChecklistOf(t))
  {
    hide KitOf, ChecklistOf, Agree;
    match t
    case K8sRaw => K8sRawAgrees();
    case Helm => HelmAgrees();
    case Operator => OperatorAgrees();
    case Serverless => ServerlessAgrees();
    case Snap => SnapAgrees();
    case JujuMachine => JujuMachineAgrees();
    case JujuK8s => JujuK8sAgrees();
  }

  lemma KindOfKit(t: Target)
    requires !t.Terraform?
    ensures KitOf(t).AssetKit? <==> t in {K8sRaw, Operator, Serverless}
  {
  }

  lemma TerraformTablesAgree(p: Provider)
    ensures forall s | s in TerraformScripts(p) :: [s] in TerraformWritten(p)
    ensures ["terraform-runtime.json"] in TerraformWritten(p)
  {
    var ss, ws := TerraformScripts(p), TerraformWritten(p);
    assert forall i | 0 <= i < |ss| :: ws[i] == [ss[i]];
    assert ws[|ws| - 2] == ["terraform-runtime.json"];
  }

  // ---------- materialise, then status ----------

  lemma ExistsIn(files: set<Names>, p: Names)
    requires p in files
    ensures Exists(files, p)
  {
  }

  /** Terraform is ready after every successful materialisation that copied something, from any start. */
  lemma TerraformReady(p: Provider, pack: set<Names>, dir: DeployDir, extra: set<Names>)
    requires Subtree(pack, "terraform") != {}
    ensures var o := MaterializeHandoff(Terraform, p, pack, dir, true, extra);
            o.Materialized? && StatusOf(Terraform, o.dir) == Ready
  {
    hide Subtree, TerraformScripts, TerraformWritten, Exists;
    var d := MaterializeHandoff(Terraform, p, pack, dir, true, extra).dir;
    var scripts := TerraformScripts(p);
    TerraformTablesAgree(p);
    var f :| f in Subtree(pack, "terraform");
    assert ["terraform"] + f in Under("terraform", Subtree(pack, "terraform") + extra);
    HasDirectory(d.files, "terraform", f);
    forall i | 0 <= i < |scripts| ensures Exists(d.files, Singles(scripts)[i]) {
      assert scripts[i] in scripts;
      ExistsIn(d.files, [scripts[i]]);
    }
  }

  lemma HasDirectory(files: set<Names>, base: string, f: Names)
    requires [base] + f in files
    ensures Exists(files, [base])
  {
    assert [base] <= [base] + f;
  }

  /** The targets that copy one asset are ready after every materialisation that does not fail, and it
      fails exactly when the pack lacks the asset. */
  lemma AssetReady(t: Target, p: Provider, pack: set<Names>, dir: DeployDir, rewriteOk: bool, extra: set<Names>)
    requires t in {K8sRaw, Operator, Serverless}
    ensures var o := MaterializeHandoff(t, p, pack, dir, rewriteOk, extra);
            (o.Materialized? <==> KitOf(t).asset in pack) &&
            (o.Materialized? ==> StatusOf(t, o.dir) == Ready)
  {
    hide KitOf, ChecklistOf, Exists;
    TablesAgree(t);
    KindOfKit(t);
    var k, l := KitOf(t), ChecklistOf(t);
    var o := MaterializeHandoff(t, p, pack, dir, rewriteOk, extra);
    if o.Materialized? {
      var files := o.dir.files;
      ExistsIn(files, l.note);
      forall i | 0 <= i < |l.checks| ensures Exists(files, l.checks[i]) {
        assert l.checks[i] in l.checks;
        ExistsIn(files, l.checks[i]);
      }
    }
  }

  /** The pack supplies a file (or a directory) in the subtree. */
  predicate Supplies(pack: set<Names>, subtree: string, content: Names) { Exists(Subtree(pack, subtree), content) }

  /** A path below the copied directory is there afterwards if it was there before or was copied. */
  lemma ExistsAfter(files: set<Names>, k: Kit, copied: set<Names>, check: Names)
    requires IsContent(k, check) && forall f | f in k.written :: |f| == 1
    ensures Exists(files + Under(k.base, copied) + Files(k.written), check) <==>
            Exists(files, check) || Exists(copied, check[1..])
  {
    var all := files + Under(k.base, copied) + Files(k.written);
    if Exists(all, check) {
      var f :| f in all && check <= f;
      assert |f| >= 2;
      if f !in files {
        var g :| g in copied && f == [k.base] + g;
        assert g == f[1..] && check[1..] <= g;
      }
    }
    if Exists(copied, check[1..]) {
      var g :| g in copied && check[1..] <= g;
      assert check == [k.base] + check[1..];
      assert [k.base] + g in Under(k.base, copied) && check <= [k.base] + g;
    }
  }

  /** The targets that copy a subtree: an empty subtree changes nothing; otherwise the status is ready
      exactly when each checked file below the copied directory was supplied by the pack, or was left from
      an earlier materialisation. In a fresh directory only the pack counts. */
  lemma SubtreeStatus(t: Target, p: Provider, pack: set<Names>, dir: DeployDir, rewriteOk: bool, extra: set<Names>)
    requires t in {Helm, Snap, JujuMachine, JujuK8s}
    ensures var o, k := MaterializeHandoff(t, p, pack, dir, rewriteOk, extra), KitOf(t);
            o.Materialized? &&
            (Subtree(pack, k.subtree) == {} ==> o.dir == dir) &&
            (Subtree(pack, k.subtree) != {} ==>
               StatusOf(t, o.dir) ==
               if forall c | c in ChecklistOf(t).checks && IsContent(k, c) ::
                    Exists(dir.files, c) || Supplies(pack, k.subtree, c[1..])
               then Ready else Incomplete)
  {
    hide KitOf, ChecklistOf, Exists, Subtree, Agree, AllExist, Files, Under, IsContent;
    TablesAgree(t);
    KindOfKit(t);
    var k, copied := KitOf(t), Subtree(pack, KitOf(t).subtree);
    if copied != {} { KitStatus(k, ChecklistOf(t), dir.files, copied); }
  }

  /** After a subtree was copied the note is there, and the checks come down to the content files. */
  lemma KitStatus(k: Kit, l: Checklist, earlier: set<Names>, copied: set<Names>)
    requires k.SubtreeKit? && Agree(k, l)
    ensures var files := earlier + Under(k.base, copied) + Files(k.written);
            Exists(files, l.note) &&
            (AllExist(files, l.checks) <==>
               forall c | c in l.checks && IsContent(k, c) :: Exists(earlier, c) || Exists(copied, c[1..]))
  {
    hide Exists, Under;
    var files := earlier + Under(k.base, copied) + Files(k.written);
    ExistsIn(files, l.note);
    forall c | c in l.checks
      ensures Exists(files, c) <==> !IsContent(k, c) || Exists(earlier, c) || Exists(copied, c[1..])
    {
      if IsContent(k, c) { ExistsAfter(earlier, k, copied, c); } else { ExistsIn(files, c); }
    }
    assert AllExist(files, l.checks) <==> forall c | c in l.checks :: Exists(files, c);
  }

  lemma StillExists(files: set<Names>, more: set<Names>, ps: seq<Names>)
    requires files <= more
    ensures forall p :: Exists(files, p) ==> Exists(more, p)
    ensures AllExist(files, ps) ==> AllExist(more, ps)
  {
  }

  /** Materialising a target, the same one again or another, adds files and removes none, so that whatever
      was ready stays ready. */
  lemma ReadyStays(ready: Target, t: Target, p: Provider, pack: set<Names>, dir: DeployDir, rewriteOk: bool,
      extra: set<Names>)
    requires StatusOf(ready, dir) == Ready && MaterializeHandoff(t, p, pack, dir, rewriteOk, extra).Materialized?
    ensures var after := MaterializeHandoff(t, p, pack, dir, rewriteOk, extra).dir;
            dir.files <= after.files && StatusOf(ready, after) == Ready
  {
    hide Exists, AllExist, ChecklistOf, KitOf, Subtree, TerraformScripts, TerraformWritten;
    var after := MaterializeHandoff(t, p, pack, dir, rewriteOk, extra).dir;
    if ready.Terraform? {
      StillExists(dir.files, after.files, Singles(dir.runtimeScripts.value));
      if t.Terraform? && Subtree(pack, "terraform") != {} { TerraformReady(p, pack, dir, extra); }
    } else {
      StillExists(dir.files, after.files, ChecklistOf(ready).checks);
    }
  }

  // ---------- local execution finds its scripts ----------

  /** The scripts that `synthesize_local_execution_outcome` runs for apply and destroy. */
  function LocalScripts(t: Target): (string, string) {
    match t
    case Terraform => ("terraform-apply.sh", "terraform-destroy.sh")
    case Operator => ("operator-apply.sh", "operator-delete.sh")
    case K8sRaw => ("kubectl-apply.sh", "kubectl-delete.sh")
    case Helm => ("helm-upgrade.sh", "helm-rollback.sh")
    case Serverless => ("serverless-deploy.sh", "serverless-destroy.sh")
    case Snap => ("snap-install.sh", "snap-remove.sh")
    case JujuMachine => ("juju-machine-deploy.sh", "juju-machine-remove.sh")
    case JujuK8s => ("juju-k8s-deploy.sh", "juju-k8s-remove.sh")
  }

  /** Apply runs the first script that the materialiser of the target writes and destroy the second, or the
      third where the status script is second; terraform's two come after its init and plan scripts. */
  lemma LocalScriptsWritten(t: Target, p: Provider)
    ensures var (apply, destroy) := LocalScripts(t);
            if t.Terraform? then TerraformWritten(p)[2..4] == [[apply], [destroy]]
            else |KitOf(t).written| == 4 && KitOf(t).written[0] == [apply] &&
                 KitOf(t).written[if t.Serverless? then 2 else 1] == [destroy]
  {
  }

  /** The paths that a ready status has seen. */
  function Checked(t: Target, p: Provider): seq<Names> {
    if t.Terraform? then Singles(TerraformScripts(p)) else ChecklistOf(t).checks
  }

  /** Whenever a status command reports a target as ready, local apply and destroy find their scripts. */
  lemma ReadyHasLocalScripts(t: Target, p: Provider, dir: DeployDir)
    requires StatusOf(t, dir) == Ready
    requires t.Terraform? ==> dir.runtimeScripts == Some(TerraformScripts(p))
    ensures Exists(dir.files, [LocalScripts(t).0]) && Exists(dir.files, [LocalScripts(t).1])
  {
    LocalScriptsChecked(t, p);
    hide Exists, ChecklistOf, LocalScripts, TerraformScripts;
    var i :| 0 <= i < |Checked(t, p)| && Checked(t, p)[i] == [LocalScripts(t).0];
    var j :| 0 <= j < |Checked(t, p)| && Checked(t, p)[j] == [LocalScripts(t).1];
  }

  lemma LocalScriptsChecked(t: Target, p: Provider)
    ensures [LocalScripts(t).0] in Checked(t, p) && [LocalScripts(t).1] in Checked(t, p)
  {
    var ps := Checked(t, p);
    if t.Terraform? || t.Snap? {
      assert ps[2] == [LocalScripts(t).0] && ps[3] == [LocalScripts(t).1];
    } else {
      assert ps[1] == [LocalScripts(t).0] && ps[2] == [LocalScripts(t).1];
    }
  }
}
