/** The deployer contract a pack manifest carries as an extension (src/contract.rs). */
module Contract {
  import opened Wrappers
  import opened Text

  datatype Capability = Generate | Plan | Apply | Destroy | Status | Rollback

  datatype CapabilitySpec = CapabilitySpec(capability: Capability, flowId: string)

  datatype DeployerContract = DeployerContract(schemaVersion: nat, plannerFlow: string,
      capabilities: seq<CapabilitySpec>)

  datatype ContractError =
    | UnsupportedVersion(version: nat) | EmptyPlannerFlow | EmptyFlow(capability: Capability)
    | DuplicateCapability(capability: Capability) | NoPlan | UnexpectedType | Undecodable

  /** The payload of an extension: none, of another kind, or JSON that may or may not decode. */
  datatype Inline = NoInline | OtherKind | Json(decoded: Option<DeployerContract>)

  datatype Manifest = Manifest(packId: string, flows: seq<string>, extensions: map<string, Inline>)

  const EXT_CONTRACT := "greentic.deployer.contract.v1"
  const EXT_LEGACY := "greentic.deployer.v1"

  predicate Blank(s: string) { Trim(s) == [] }

  predicate Distinct(cs: seq<CapabilitySpec>) {
    forall i, j | 0 <= i < j < |cs| :: cs[i].capability != cs[j].capability
  }

  /** A contract that passes validation. */
  predicate IsValid(c: DeployerContract) {
    c.schemaVersion == 1 && !Blank(c.plannerFlow) && Distinct(c.capabilities) &&
    (forall s | s in c.capabilities :: !Blank(s.flowId)) &&
    exists s | s in c.capabilities :: s.capability == Plan
  }

  /** The first fault among some capability entries, given those already seen. */
  function FirstFault(cs: seq<CapabilitySpec>, seen: set<Capability>): Option<ContractError> {
    if cs == [] then if Plan in seen then None else Some(NoPlan)
    else if Blank(cs[0].flowId) then Some(EmptyFlow(cs[0].capability))
    else if cs[0].capability in seen then Some(DuplicateCapability(cs[0].capability))
    else FirstFault(cs[1..], seen + {cs[0].capability})
  }

  /** The first fault of a contract, in the order in which it is checked. */
  function Fault(c: DeployerContract): Option<ContractError> {
    if c.schemaVersion != 1 then Some(UnsupportedVersion(c.schemaVersion))
    else if Blank(c.plannerFlow) then Some(EmptyPlannerFlow)
    else FirstFault(c.capabilities, {})
  }

  method Validate(c: DeployerContract) returns (r: Result<(), ContractError>)
    ensures r == if Fault(c).Some? then Err(Fault(c).value) else Ok(())
  {
    hide Blank;
    if c.schemaVersion != 1 {
      return Err(UnsupportedVersion(c.schemaVersion));
    }
    if Blank(c.plannerFlow) {
      return Err(EmptyPlannerFlow);
    }
    var seen: set<Capability> := {};
    for i := 0 to |c.capabilities|
      invariant FirstFault(c.capabilities, {}) == FirstFault(c.capabilities[i..], seen)
    {
      var spec := c.capabilities[i];
      assert c.capabilities[i..][1..] == c.capabilities[i + 1..];
      if Blank(spec.flowId) {
        return Err(EmptyFlow(spec.capability));
      }
      if spec.capability in seen {
        return Err(DuplicateCapability(spec.capability));
      }
      seen := seen + {spec.capability};
    }
    if Plan !in seen {
      return Err(NoPlan);
    }
    r := Ok(());
  }

  lemma {:induction false} FirstFaultExact(cs: seq<CapabilitySpec>, seen: set<Capability>)
    ensures FirstFault(cs, seen) == None <==>
            Distinct(cs) && (forall s | s in cs :: !Blank(s.flowId) && s.capability !in seen) &&
            (Plan in seen || exists s | s in cs :: s.capability == Plan)
  {
    hide Blank;
    if cs != [] {
      var t := cs[1..];
      FirstFaultExact(t, seen + {cs[0].capability});
      assert cs == [cs[0]] + t;
      assert forall i | 0 <= i < |t| :: t[i] == cs[i + 1] && t[i] in t;
    }
  }

  /** The checks find a fault in exactly the contracts that are not valid. */
  lemma FaultExact(c: DeployerContract)
    ensures Fault(c) == None <==> IsValid(c)
  {
    FirstFaultExact(c.capabilities, {});
    hide Blank, Distinct;
  }

  /** Entries in which nothing is wrong, given the capabilities before them. */
  predicate Clean(cs: seq<CapabilitySpec>, seen: set<Capability>) {
    Distinct(cs) && forall i | 0 <= i < |cs| :: !Blank(cs[i].flowId) && cs[i].capability !in seen
  }

  /** How far the entries are clean, and what is wrong with the next one. */
  lemma {:induction false} FirstFaultAt(cs: seq<CapabilitySpec>, seen: set<Capability>) returns (n: nat)
    ensures n <= |cs| && Clean(cs[..n], seen) && (n < |cs| ==> !Clean(cs[..n + 1], seen))
    ensures FirstFault(cs, seen) ==
            if n < |cs| && Blank(cs[n].flowId) then Some(EmptyFlow(cs[n].capability))
            else if n < |cs| then Some(DuplicateCapability(cs[n].capability))
            else if Plan in seen || exists s | s in cs :: s.capability == Plan then None
            else Some(NoPlan)
  {
    hide Blank;
    n := 0;
    if cs != [] {
      if Blank(cs[0].flowId) || cs[0].capability in seen {
        assert cs[..1][0] == cs[0];
      } else {
        var m := FirstFaultAt(cs[1..], seen + {cs[0].capability});
        n := m + 1;
        CleanFront(cs, seen, n);
        if n < |cs| { CleanFront(cs, seen, n + 1); }
        assert cs == [cs[0]] + cs[1..];
      }
    }
  }

  lemma CleanFront(cs: seq<CapabilitySpec>, seen: set<Capability>, n: nat)
    requires 0 < n <= |cs| && !Blank(cs[0].flowId) && cs[0].capability !in seen
    ensures Clean(cs[..n], seen) <==> Clean(cs[1..][..n - 1], seen + {cs[0].capability})
  {
    hide Blank;
    var a, b := cs[..n], cs[1..][..n - 1];
    assert forall i | 0 <= i < n - 1 :: b[i] == a[i + 1];
    assert forall i | 0 < i < n :: a[i] == b[i - 1];
  }

  /** Which fault is reported, exactly: a wrong version first, then a blank planner flow, then the first
      entry that is blank or a second one for its capability, and last a missing plan. */
  lemma FaultIs(c: DeployerContract) returns (n: nat)
    ensures var cs := c.capabilities;
            n <= |cs| && Clean(cs[..n], {}) && (n < |cs| ==> !Clean(cs[..n + 1], {})) &&
            Fault(c) ==
            if c.schemaVersion != 1 then Some(UnsupportedVersion(c.schemaVersion))
            else if Blank(c.plannerFlow) then Some(EmptyPlannerFlow)
            else if n < |cs| && Blank(cs[n].flowId) then Some(EmptyFlow(cs[n].capability))
            else if n < |cs| then Some(DuplicateCapability(cs[n].capability))
            else if exists s | s in cs :: s.capability == Plan then None
            else Some(NoPlan)
  {
    hide Blank, Clean, FirstFault;
    n := FirstFaultAt(c.capabilities, {});
  }

  /** `capability`: the first entry for it. */
  function FindCapability(cs: seq<CapabilitySpec>, capability: Capability): Option<CapabilitySpec> {
    if cs == [] then None
    else if cs[0].capability == capability then Some(cs[0])
    else FindCapability(cs[1..], capability)
  }

  /** In a valid contract the first entry is the only one, so looking it up is exact. */
  lemma {:induction false} FindCapabilityExact(cs: seq<CapabilitySpec>, spec: CapabilitySpec)
    requires Distinct(cs)
    ensures FindCapability(cs, spec.capability) == Some(spec) <==> spec in cs
    ensures FindCapability(cs, spec.capability) == None <==> forall s | s in cs :: s.capability != spec.capability
  {
    if cs != [] {
      assert Distinct(cs[1..]) by {
        forall i, j | 0 <= i < j < |cs| - 1 ensures cs[1..][i].capability != cs[1..][j].capability {
          assert cs[i + 1].capability != cs[j + 1].capability;
        }
      }
      FindCapabilityExact(cs[1..], spec);
      assert cs == [cs[0]] + cs[1..];
      assert forall s | s in cs[1..] :: s.capability != cs[0].capability by {
        forall s | s in cs[1..] ensures s.capability != cs[0].capability {
          var j :| 0 <= j < |cs| - 1 && cs[1..][j] == s;
          assert cs[0].capability != cs[j + 1].capability;
        }
      }
    }
  }

  /** The extension that is looked at: the current key, or the legacy one if that is absent. */
  function ContractExtension(m: Manifest): Option<Inline> {
    if EXT_CONTRACT in m.extensions then Some(m.extensions[EXT_CONTRACT])
    else if EXT_LEGACY in m.extensions then Some(m.extensions[EXT_LEGACY])
    else None
  }

  /** `get_deployer_contract_v1`: None for a pack without a contract, an error for a bad one. */
  function GetContract(m: Manifest): Result<Option<DeployerContract>, ContractError> {
    match ContractExtension(m)
    case None => Ok(None)
    case Some(NoInline) => Ok(None)
    case Some(OtherKind) => Err(UnexpectedType)
    case Some(Json(None)) => Err(Undecodable)
    case Some(Json(Some(c))) => if Fault(c).Some? then Err(Fault(c).value) else Ok(Some(c))
  }

  /** A manifest under construction. */
  class ManifestDraft {
    var manifest: Manifest

    constructor (m: Manifest)
      ensures manifest == m
    {
      manifest := m;
    }

    /** `set_deployer_contract_v1` */
    method SetContract(c: DeployerContract) returns (r: Result<(), ContractError>)
      modifies this
      ensures r == if Fault(c).Some? then Err(Fault(c).value) else Ok(())
      ensures manifest == if IsValid(c) then WithContract(old(manifest), c) else old(manifest)
    {
      r := Validate(c);
      FaultExact(c);
      if r.Err? {
        return;
      }
      manifest := manifest.(extensions := manifest.extensions[EXT_CONTRACT := Json(Some(c))]);
    }
  }

  function WithContract(m: Manifest, c: DeployerContract): Manifest {
    m.(extensions := m.extensions[EXT_CONTRACT := Json(Some(c))])
  }

  /** Every contract that is read from a manifest is valid. */
  lemma FoundIsValid(m: Manifest)
    ensures GetContract(m).Ok? && GetContract(m).value.Some? ==> IsValid(GetContract(m).value.value)
  {
    hide IsValid, Fault;
    if GetContract(m).Ok? && GetContract(m).value.Some? { FaultExact(GetContract(m).value.value); }
  }

  /** A contract is found exactly if it is valid and stands under the current key, or under the legacy one
      of a manifest without the current key. */
  lemma FoundExact(m: Manifest, c: DeployerContract)
    ensures GetContract(m) == Ok(Some(c)) <==>
            IsValid(c) &&
            ((EXT_CONTRACT in m.extensions && m.extensions[EXT_CONTRACT] == Json(Some(c))) ||
             (EXT_CONTRACT !in m.extensions && EXT_LEGACY in m.extensions && m.extensions[EXT_LEGACY] == Json(Some(c))))
  {
    hide IsValid, Fault;
    FaultExact(c);
  }

  /** Round trip: a contract that was set is the one found, over any legacy one; and setting a contract
      touches nothing else in the manifest. */
  lemma SetThenGet(m: Manifest, c: DeployerContract)
    requires IsValid(c)
    ensures GetContract(WithContract(m, c)) == Ok(Some(c))
    ensures WithContract(m, c).packId == m.packId && WithContract(m, c).flows == m.flows
    ensures forall k | k in m.extensions && k != EXT_CONTRACT ::
              k in WithContract(m, c).extensions && WithContract(m, c).extensions[k] == m.extensions[k]
  {
    FaultExact(c);
  }
}
