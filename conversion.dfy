/**
 * The hand-written parts of the conversions between the v1alpha1 API
 * (the spoke) and the v1alpha2 API (the hub), api/v1alpha1/conversion.go.
 *
 * Going down (ConvertFrom), the generated converter copies the fields
 * both versions share, the hand-written code derives the spoke-only
 * fields, and the whole hub is kept in a data annotation on the spoke.
 * Going up (ConvertTo), the generated converter copies the shared fields
 * back, and the hand-written code restores the hub-only fields from the
 * annotation when there is one, or derives them from the spoke.
 *
 * The fields both versions share, which the generated converters copy
 * unchanged, are a type parameter `C` of every resource below.
 */
module Conversion {
  import opened Base
  import opened GoStrings
  import ResourceErrors

  // ----- Annotations -----

  /** The data annotation on a spoke: missing, the hub it recorded, or text that is not valid JSON for the hub. */
  datatype Annotation<H> = NoAnnotation | Data(hub: H) | Malformed

  /** The error UnmarshalData reports for an annotation it cannot decode. */
  const MalformedAnnotation := "cannot unmarshal the data annotation"

  /** UnmarshalData: whether an annotation was found, and the hub it holds. */
  function UnmarshalData<H>(a: Annotation<H>): (r: Result<Option<H>, string>)
    ensures r.Failure? <==> a.Malformed?
    ensures r.Success? ==> (r.value.Some? <==> a.Data?)
    ensures a.Data? ==> r == Success(Some(a.hub))
  {
    match a
    case NoAnnotation => Success(None)
    case Data(h) => Success(Some(h))
    case Malformed => Failure(MalformedAnnotation)
  }

  // ----- Error records -----

  /** The hub's ResourceErrorInfo, with its type and severity as the strings the API stores ("" when unset). */
  datatype HubError = HubError(userMessage: string, debugMessage: string, errType: string, severity: string)

  /** The spoke's ResourceErrorInfo: a flag instead of a type and a severity. */
  datatype SpokeError = SpokeError(userMessage: string, debugMessage: string, recoverable: bool)

  const SeverityFatal: string := ResourceErrors.Severity.Fatal.Name()

  /** A hub error record as the API stores it. */
  function HubErrorOf(i: ResourceErrors.Info): HubError {
    HubError(i.userMessage, i.debugMessage, i.errType.Name(), i.severity.Name())
  }

  /** The generated converter up: the messages, with type and severity unset. */
  function AutoErrorTo(e: SpokeError): HubError {
    HubError(e.userMessage, e.debugMessage, "", "")
  }

  /** The generated converter down: the messages, with the flag unset. */
  function AutoErrorFrom(e: HubError): SpokeError {
    SpokeError(e.userMessage, e.debugMessage, false)
  }

  // ----- ClientMount, DirectiveBreakdown and PersistentStorageInstance -----

  /** A hub resource whose status carries an optional error. */
  datatype ErrHub<C> = ErrHub(common: C, error: Option<HubError>)

  /** Its spoke: the same error with the recoverable flag, and the data annotation. */
  datatype ErrSpoke<C> = ErrSpoke(common: C, error: Option<SpokeError>, annotation: Annotation<ErrHub<C>>)

  /** ConvertFrom: the error is recoverable exactly when it is not fatal; the hub goes into the annotation. */
  function ErrConvertFrom<C>(h: ErrHub<C>): (s: ErrSpoke<C>)
    ensures s.common == h.common && s.annotation == Data(h)
    ensures s.error.Some? <==> h.error.Some?
    ensures h.error.Some? ==>
      && s.error.value.userMessage == h.error.value.userMessage
      && s.error.value.debugMessage == h.error.value.debugMessage
      && (s.error.value.recoverable <==> h.error.value.severity != SeverityFatal)
  {
    var e := match h.error
      case None => None
      case Some(he) => Some(AutoErrorFrom(he).(recoverable := he.severity != SeverityFatal));
    ErrSpoke(h.common, e, Data(h))
  }

  /** The generated part of ConvertTo. */
  function AutoErrSpokeTo<C>(s: ErrSpoke<C>): ErrHub<C> {
    ErrHub(s.common, match s.error case None => None case Some(e) => Some(AutoErrorTo(e)))
  }

  /** The last step of ConvertTo: an error that is not recoverable becomes fatal, whatever was restored. */
  function FatalOverride<C>(s: ErrSpoke<C>, dst: ErrHub<C>): ErrHub<C> {
    if s.error.Some? && !s.error.value.recoverable && dst.error.Some? then
      dst.(error := Some(dst.error.value.(severity := SeverityFatal)))
    else dst
  }

  /** What a Go conversion can end in: a hub, an error, or a panic. */
  datatype Outcome<H> = Converted(hub: H) | Failed(message: string) | Panicked

  /**
   * ConvertTo as written: when the annotation recorded an error, its type
   * and severity are copied into the converted error, which dereferences
   * that error even when the spoke has none.
   */
  function ErrConvertToAsWritten<C>(s: ErrSpoke<C>): Outcome<ErrHub<C>> {
    var dst := AutoErrSpokeTo(s);
    match UnmarshalData(s.annotation)
    case Failure(m) => Failed(m)
    case Success(restored) =>
      if restored.Some? && restored.value.error.Some? then
        if dst.error.None? then Panicked
        else
          var re := restored.value.error.value;
          Converted(FatalOverride(s, dst.(error := Some(dst.error.value.(errType := re.errType, severity := re.severity)))))
      else Converted(FatalOverride(s, dst))
  }

  /** ConvertTo, with the copy from the annotation made only when the spoke still has an error. */
  function ErrConvertTo<C>(s: ErrSpoke<C>): Result<ErrHub<C>, string> {
    var dst := AutoErrSpokeTo(s);
    match UnmarshalData(s.annotation)
    case Failure(m) => Failure(m)
    case Success(restored) =>
      if restored.Some? && restored.value.error.Some? && dst.error.Some? then
        var re := restored.value.error.value;
        Success(FatalOverride(s, dst.(error := Some(dst.error.value.(errType := re.errType, severity := re.severity)))))
      else Success(FatalOverride(s, dst))
  }

  /** A spoke whose error was cleared after the hub was recorded makes ConvertTo as written panic. */
  lemma ErrConvertToPanics<C>(c: C)
    ensures var recorded := ErrHub(c, Some(HubError("failed", "", "User", "Major")));
      ErrConvertToAsWritten(ErrSpoke(c, None, Data(recorded))) == Panicked
  {
  }

  /** Wherever the code as written does not panic, it agrees with the guarded conversion. */
  lemma ErrConvertToAgrees<C>(s: ErrSpoke<C>)
    ensures ErrConvertToAsWritten(s).Failed? <==> ErrConvertTo(s).Failure?
    ensures ErrConvertToAsWritten(s).Converted? ==> ErrConvertToAsWritten(s).hub == ErrConvertTo(s).value
    ensures ErrConvertToAsWritten(s).Panicked? <==>
      && s.error.None? && s.annotation.Data? && s.annotation.hub.error.Some?
  {
    if s.annotation.Data? && s.annotation.hub.error.Some? && s.error.Some? {
      var re := s.annotation.hub.error.value;
      var dst := AutoErrSpokeTo(s);
      assert ErrConvertToAsWritten(s) == Converted(FatalOverride(s, dst.(error := Some(dst.error.value.(errType := re.errType, severity := re.severity)))));
    }
  }

  /**
   * ConvertTo up from a spoke: it fails only on an undecodable annotation;
   * the messages come from the spoke; type and severity come from the
   * recorded hub's error when there is one and are unset otherwise; and an
   * unrecoverable error is fatal in any case.
   */
  lemma ErrConvertToMeaning<C>(s: ErrSpoke<C>)
    ensures ErrConvertTo(s).Failure? <==> s.annotation.Malformed?
    ensures ErrConvertTo(s).Success? ==>
      var h := ErrConvertTo(s).value;
      var restored := s.annotation.Data? && s.annotation.hub.error.Some?;
      && h.common == s.common
      && (h.error.Some? <==> s.error.Some?)
      && (s.error.Some? ==>
            && h.error.value.userMessage == s.error.value.userMessage
            && h.error.value.debugMessage == s.error.value.debugMessage
            && h.error.value.errType == (if restored then s.annotation.hub.error.value.errType else "")
            && h.error.value.severity ==
                 (if !s.error.value.recoverable then SeverityFatal
                  else if restored then s.annotation.hub.error.value.severity
                  else ""))
  {
  }

  /** Down and up again gives back the hub. */
  lemma ErrRoundTrip<C>(h: ErrHub<C>)
    ensures ErrConvertTo(ErrConvertFrom(h)) == Success(h)
  {
    var s := ErrConvertFrom(h);
    if h.error.Some? {
      var e := h.error.value;
      var dst := AutoErrSpokeTo(s).(error := Some(AutoErrorTo(s.error.value).(errType := e.errType, severity := e.severity)));
      assert dst.error.value == e;
    }
  }

  // ----- Servers -----

  /** A hub Servers: v1alpha2 added an error to the status. */
  datatype ServersHub<C> = ServersHub(common: C, error: Option<HubError>)

  datatype ServersSpoke<C> = ServersSpoke(common: C, annotation: Annotation<ServersHub<C>>)

  function ServersConvertFrom<C>(h: ServersHub<C>): (s: ServersSpoke<C>)
    ensures s.common == h.common && s.annotation == Data(h)
  {
    ServersSpoke(h.common, Data(h))
  }

  /**
   * Servers ConvertTo: without an annotation it stops after the generated
   * copy; with one, a recorded error is rebuilt as a fresh record carrying
   * the recorded messages, type and severity.
   */
  function ServersConvertTo<C>(s: ServersSpoke<C>): Result<ServersHub<C>, string> {
    var dst := ServersHub(s.common, None);
    match UnmarshalData(s.annotation)
    case Failure(m) => Failure(m)
    case Success(restored) =>
      if restored.None? then Success(dst)
      else if restored.value.error.Some? then
        var re := restored.value.error.value;
        var blank := HubErrorOf(ResourceErrors.Fresh(""));
        Success(dst.(error := Some(blank.(debugMessage := re.debugMessage, userMessage := re.userMessage,
                                          errType := re.errType, severity := re.severity))))
      else Success(dst)
  }

  /** Servers up: no error without an annotation, and otherwise exactly the recorded error. */
  lemma ServersConvertToMeaning<C>(s: ServersSpoke<C>)
    ensures ServersConvertTo(s).Failure? <==> s.annotation.Malformed?
    ensures s.annotation.NoAnnotation? ==> ServersConvertTo(s) == Success(ServersHub(s.common, None))
    ensures s.annotation.Data? ==> ServersConvertTo(s) == Success(ServersHub(s.common, s.annotation.hub.error))
  {
  }

  lemma ServersRoundTrip<C>(h: ServersHub<C>)
    ensures ServersConvertTo(ServersConvertFrom(h)) == Success(h)
  {
    ServersConvertToMeaning(ServersConvertFrom(h));
  }

  // ----- Storage -----

  /** A hub Storage: v1alpha2 added the mode to the spec. */
  datatype StorageHub<C> = StorageHub(common: C, mode: string)

  datatype StorageSpoke<C> = StorageSpoke(common: C, annotation: Annotation<StorageHub<C>>)

  function StorageConvertFrom<C>(h: StorageHub<C>): (s: StorageSpoke<C>)
    ensures s.common == h.common && s.annotation == Data(h)
  {
    StorageSpoke(h.common, Data(h))
  }

  /** Storage ConvertTo: the mode is unset without an annotation and the recorded one with it. */
  function StorageConvertTo<C>(s: StorageSpoke<C>): (r: Result<StorageHub<C>, string>)
    ensures r.Failure? <==> s.annotation.Malformed?
    ensures r.Success? ==> r.value.common == s.common
    ensures s.annotation.NoAnnotation? ==> r == Success(StorageHub(s.common, ""))
    ensures s.annotation.Data? ==> r == Success(StorageHub(s.common, s.annotation.hub.mode))
  {
    var dst := StorageHub(s.common, "");
    match UnmarshalData(s.annotation)
    case Failure(m) => Failure(m)
    case Success(restored) =>
      if restored.None? then Success(dst) else Success(dst.(mode := restored.value.mode))
  }

  lemma StorageRoundTrip<C>(h: StorageHub<C>)
    ensures StorageConvertTo(StorageConvertFrom(h)) == Success(h)
  {
  }

  // ----- Workflow -----

  /** The range of a Go int32. */
  type Int32 = x: int | -0x8000_0000 <= x < 0x8000_0000

  /** intstr.IntOrString: an int32, or a string. */
  datatype IntOrString = IntVal(i: Int32) | StrVal(s: string)

  /** A Go conversion int32(x) of a 64-bit int: the low 32 bits, read as two's complement. */
  function Wrap32(x: int): (r: Int32)
    ensures -0x8000_0000 <= x < 0x8000_0000 ==> r == x
    ensures (r - x) % 0x1_0000_0000 == 0
  {
    (x + 0x8000_0000) % 0x1_0000_0000 - 0x8000_0000
  }

  /** intstr.FromInt: the int, narrowed to int32. */
  function FromInt(x: int): IntOrString {
    IntVal(Wrap32(x))
  }

  /** IntValue: the int, or the string read as a decimal number (0 when it is not one). */
  function IntValue(v: IntOrString): (r: int)
    ensures InIntRange(r)
    ensures v.IntVal? ==> r == v.i
    ensures v.StrVal? && Atoi(v.s).Some? ==> r == Atoi(v.s).value
  {
    match v
    case IntVal(i) => i
    case StrVal(s) => AtoiValue(s)
  }

  /** A hub Workflow: the job ID became an int or a string in v1alpha2. */
  datatype WorkflowHub<C> = WorkflowHub(common: C, jobID: IntOrString)

  datatype WorkflowSpoke<C> = WorkflowSpoke(common: C, jobID: int, annotation: Annotation<WorkflowHub<C>>)

  /** Workflow ConvertFrom: the job ID is the hub's, as a number. */
  function WorkflowConvertFrom<C>(h: WorkflowHub<C>): (s: WorkflowSpoke<C>)
    ensures s.common == h.common && s.annotation == Data(h)
    ensures h.jobID.IntVal? ==> s.jobID == h.jobID.i
  {
    WorkflowSpoke(h.common, IntValue(h.jobID), Data(h))
  }

  /** Workflow ConvertTo: the recorded job ID when there is an annotation, and the spoke's as an int otherwise. */
  function WorkflowConvertTo<C>(s: WorkflowSpoke<C>): (r: Result<WorkflowHub<C>, string>)
    ensures r.Failure? <==> s.annotation.Malformed?
    ensures s.annotation.Data? ==> r == Success(WorkflowHub(s.common, s.annotation.hub.jobID))
    ensures s.annotation.NoAnnotation? ==> r == Success(WorkflowHub(s.common, IntVal(Wrap32(s.jobID))))
  {
    match UnmarshalData(s.annotation)
    case Failure(m) => Failure(m)
    case Success(restored) =>
      if restored.Some? then Success(WorkflowHub(s.common, restored.value.jobID))
      else Success(WorkflowHub(s.common, FromInt(s.jobID)))
  }

  /** Down and up again gives back the hub, a string job ID included. */
  lemma WorkflowRoundTrip<C>(h: WorkflowHub<C>)
    ensures WorkflowConvertTo(WorkflowConvertFrom(h)) == Success(h)
  {
  }

  /**
   * Without an annotation, a spoke job ID survives the trip up and down
   * again exactly when it fits an int32; 2^31 comes back as -2^31.
   */
  lemma WorkflowJobIDNarrows<C>(c: C, jobID: int)
    ensures var up := WorkflowConvertTo(WorkflowSpoke(c, jobID, NoAnnotation));
      && up.Success?
      && (WorkflowConvertFrom(up.value).jobID == jobID <==> -0x8000_0000 <= jobID < 0x8000_0000)
    ensures WorkflowConvertTo(WorkflowSpoke(c, 0x8000_0000, NoAnnotation)) == Success(WorkflowHub(c, IntVal(-0x8000_0000)))
  {
    assert Wrap32(0x8000_0000) == -0x8000_0000;
  }

  // ----- SystemConfiguration -----

  datatype ComputeNode = ComputeNode(name: string)
  datatype ExternalComputeNode = ExternalComputeNode(name: string)

  /**
   * A hub SystemConfiguration: the compute names found through the storage
   * nodes (what Computes() returns), the external compute nodes, and the
   * ports cool-down.
   */
  datatype SysHub<C> = SysHub(common: C, storageComputes: seq<string>, externalComputeNodes: seq<ExternalComputeNode>, portsCooldown: int)

  /** Its spoke: one flat list of compute nodes, storage-attached and external together. */
  datatype SysSpoke<C> = SysSpoke(common: C, storageComputes: seq<string>, computeNodes: seq<ComputeNode>, portsCooldown: int,
                                  annotation: Annotation<SysHub<C>>)

  /** ComputesExternal(): the names of the external compute nodes. */
  function ExternalNames(nodes: seq<ExternalComputeNode>): (r: seq<string>)
    ensures |r| == |nodes| && forall i :: 0 <= i < |r| ==> r[i] == nodes[i].name
  {
    seq(|nodes|, i requires 0 <= i < |nodes| => nodes[i].name)
  }

  /** One compute node per name, in order. */
  function ComputeNodes(names: seq<string>): (r: seq<ComputeNode>)
    ensures |r| == |names| && forall i :: 0 <= i < |r| ==> r[i] == ComputeNode(names[i])
  {
    seq(|names|, i requires 0 <= i < |names| => ComputeNode(names[i]))
  }

  /** The spoke's list of compute nodes: the storage-attached names, then the external ones, in order. */
  function SpokeComputes<C>(h: SysHub<C>): (r: seq<ComputeNode>)
    ensures |r| == |h.storageComputes| + |h.externalComputeNodes|
    ensures forall i :: 0 <= i < |h.storageComputes| ==> r[i] == ComputeNode(h.storageComputes[i])
    ensures forall i :: 0 <= i < |h.externalComputeNodes| ==>
      r[|h.storageComputes| + i] == ComputeNode(h.externalComputeNodes[i].name)
  {
    ComputeNodes(h.storageComputes + ExternalNames(h.externalComputeNodes))
  }

  /** SystemConfiguration ConvertFrom: fills the compute list, and writes no annotation. */
  method SysConvertFrom<C>(h: SysHub<C>) returns (s: SysSpoke<C>)
    ensures s.common == h.common && s.storageComputes == h.storageComputes && s.portsCooldown == h.portsCooldown
    ensures s.computeNodes == SpokeComputes(h)
    ensures s.annotation == NoAnnotation
  {
    var computes: seq<ComputeNode> := [];
    var names := h.storageComputes + ExternalNames(h.externalComputeNodes);
    for i := 0 to |h.storageComputes|
      invariant computes == ComputeNodes(names[..i])
    {
      ComputeNodesSnoc(names[..i], names[i]);
      assert names[..i + 1] == names[..i] + [names[i]];
      computes := computes + [ComputeNode(h.storageComputes[i])];
    }
    var n := |h.storageComputes|;
    var external := ExternalNames(h.externalComputeNodes);
    for i := 0 to |external|
      invariant computes == ComputeNodes(names[..n + i])
    {
      ComputeNodesSnoc(names[..n + i], names[n + i]);
      assert names[..n + i + 1] == names[..n + i] + [names[n + i]];
      computes := computes + [ComputeNode(external[i])];
    }
    assert names[..|names|] == names;
    s := SysSpoke(h.common, h.storageComputes, computes, h.portsCooldown, NoAnnotation);
  }

  /** The names of the nodes that are not in `excluded`, in order. */
  function NotIn(nodes: seq<ComputeNode>, excluded: seq<string>): seq<string>
    decreases |nodes|
  {
    if nodes == [] then []
    else (if nodes[0].name in excluded then [] else [nodes[0].name]) + NotIn(nodes[1..], excluded)
  }

  /** FindExternalComputes: the spoke's compute names not found through its storage nodes. */
  function FindExternalComputes<C>(s: SysSpoke<C>): seq<string> {
    NotIn(s.computeNodes, s.storageComputes)
  }

  /** One external compute node per name, in order. */
  function ExternalNodes(names: seq<string>): (r: seq<ExternalComputeNode>)
    ensures |r| == |names| && forall i :: 0 <= i < |r| ==> r[i].name == names[i]
  {
    seq(|names|, i requires 0 <= i < |names| => ExternalComputeNode(names[i]))
  }

  /**
   * SystemConfiguration ConvertTo: with an annotation, the ports cool-down
   * and the external compute nodes are the recorded ones; without one,
   * the external compute nodes are those FindExternalComputes reports.
   */
  function SysConvertToSpec<C>(s: SysSpoke<C>): Result<SysHub<C>, string> {
    var dst := SysHub(s.common, s.storageComputes, [], s.portsCooldown);
    match UnmarshalData(s.annotation)
    case Failure(m) => Failure(m)
    case Success(restored) =>
      if restored.Some? then
        Success(dst.(portsCooldown := restored.value.portsCooldown,
                     externalComputeNodes := restored.value.externalComputeNodes))
      else Success(dst.(externalComputeNodes := ExternalNodes(FindExternalComputes(s))))
  }

  method SysConvertTo<C>(s: SysSpoke<C>) returns (r: Result<SysHub<C>, string>)
    ensures r == SysConvertToSpec(s)
  {
    var dst := SysHub(s.common, s.storageComputes, [], s.portsCooldown);
    var restored := UnmarshalData(s.annotation);
    if restored.Failure? {
      return Failure(restored.error);
    }
    if restored.value.Some? {
      dst := dst.(portsCooldown := restored.value.value.portsCooldown);
      dst := dst.(externalComputeNodes := restored.value.value.externalComputeNodes);
    } else {
      var externComputes := FindExternalComputes(s);
      var dstExternComputes := seq(|externComputes|, _ => ExternalComputeNode(""));
      var idx := 0;
      for i := 0 to |externComputes|
        invariant idx == i && |dstExternComputes| == |externComputes|
        invariant dstExternComputes[..i] == ExternalNodes(externComputes)[..i]
      {
        dstExternComputes := dstExternComputes[idx := ExternalComputeNode(externComputes[i])];
        idx := idx + 1;
      }
      assert dstExternComputes == dstExternComputes[..|externComputes|];
      assert ExternalNodes(externComputes)[..|externComputes|] == ExternalNodes(externComputes);
      dst := dst.(externalComputeNodes := dstExternComputes);
    }
    return Success(dst);
  }

  /** Filtering out names that are all excluded leaves nothing. */
  lemma {:induction false} NotInAllExcluded(names: seq<string>, excluded: seq<string>)
    requires forall i :: 0 <= i < |names| ==> names[i] in excluded
    ensures NotIn(ComputeNodes(names), excluded) == []
    decreases |names|
  {
    if names != [] {
      assert ComputeNodes(names)[1..] == ComputeNodes(names[1..]);
      NotInAllExcluded(names[1..], excluded);
    }
  }

  /** Filtering names none of which is excluded keeps them all. */
  lemma {:induction false} NotInNoneExcluded(names: seq<string>, excluded: seq<string>)
    requires forall i :: 0 <= i < |names| ==> names[i] !in excluded
    ensures NotIn(ComputeNodes(names), excluded) == names
    decreases |names|
  {
    if names != [] {
      assert ComputeNodes(names)[1..] == ComputeNodes(names[1..]);
      NotInNoneExcluded(names[1..], excluded);
    }
  }

  lemma ComputeNodesSnoc(a: seq<string>, x: string)
    ensures ComputeNodes(a + [x]) == ComputeNodes(a) + [ComputeNode(x)]
  {
  }

  lemma ComputeNodesAppend(a: seq<string>, b: seq<string>)
    ensures ComputeNodes(a + b) == ComputeNodes(a) + ComputeNodes(b)
  {
  }

  lemma {:induction false} NotInAppend(a: seq<ComputeNode>, b: seq<ComputeNode>, excluded: seq<string>)
    ensures NotIn(a + b, excluded) == NotIn(a, excluded) + NotIn(b, excluded)
    decreases |a|
  {
    if a != [] {
      assert (a + b)[0] == a[0];
      assert (a + b)[1..] == a[1..] + b;
      NotInAppend(a[1..], b, excluded);
    } else {
      assert a + b == b;
    }
  }

  /**
   * Down and up again: no annotation is written, so the external compute
   * nodes are found again among the spoke's computes; they come back
   * exactly when none of them shares a name with a storage-attached compute.
   */
  lemma SysRoundTrip<C>(h: SysHub<C>)
    requires forall i :: 0 <= i < |h.externalComputeNodes| ==> h.externalComputeNodes[i].name !in h.storageComputes
    ensures var s := SysSpoke(h.common, h.storageComputes, SpokeComputes(h), h.portsCooldown, NoAnnotation);
      SysConvertToSpec(s) == Success(h)
  {
    var ext := ExternalNames(h.externalComputeNodes);
    var s := SysSpoke(h.common, h.storageComputes, SpokeComputes(h), h.portsCooldown, NoAnnotation);
    assert FindExternalComputes(s) == ext by {
      ComputeNodesAppend(h.storageComputes, ext);
      NotInAppend(ComputeNodes(h.storageComputes), ComputeNodes(ext), h.storageComputes);
      NotInAllExcluded(h.storageComputes, h.storageComputes);
      NotInNoneExcluded(ext, h.storageComputes);
      assert [] + ext == ext;
    }
    assert ExternalNodes(ext) == h.externalComputeNodes;
  }

  /** An external compute named like a storage-attached one is lost on the way back. */
  lemma SysRoundTripLosesShared<C>(c: C)
    ensures var h := SysHub(c, ["n1"], [ExternalComputeNode("n1")], 0);
      var s := SysSpoke(c, ["n1"], SpokeComputes(h), 0, NoAnnotation);
      SysConvertToSpec(s) == Success(h.(externalComputeNodes := []))
  {
    var h := SysHub(c, ["n1"], [ExternalComputeNode("n1")], 0);
    var nodes := SpokeComputes(h);
    assert nodes == [ComputeNode("n1"), ComputeNode("n1")];
    assert nodes[1..] == [ComputeNode("n1")] && nodes[1..][1..] == [];
    assert NotIn(nodes[1..], ["n1"]) == [];
  }

  // ----- Lists -----

  /** The list kinds, whose conversions are never used. */
  datatype ListKind =
    | ClientMountList | ComputesList | DWDirectiveRuleList | DirectiveBreakdownList
    | PersistentStorageInstanceList | ServersList | StorageList | SystemConfigurationList | WorkflowList

  datatype Direction = ConvertTo | ConvertFrom

  /** apierrors.NewMethodNotSupported for a group, a resource and an action. */
  datatype ApiError = MethodNotSupported(group: string, resource: string, action: string)

  function KindName(k: ListKind): string {
    match k
    case ClientMountList => "ClientMountList"
    case ComputesList => "ComputesList"
    case DWDirectiveRuleList => "DWDirectiveRuleList"
    case DirectiveBreakdownList => "DirectiveBreakdownList"
    case PersistentStorageInstanceList => "PersistentStorageInstanceList"
    case ServersList => "ServersList"
    case StorageList => "StorageList"
    case SystemConfigurationList => "SystemConfigurationList"
    case WorkflowList => "WorkflowList"
  }

  function DirectionName(d: Direction): string {
    match d
    case ConvertTo => "ConvertTo"
    case ConvertFrom => "ConvertFrom"
  }

  /** Every list conversion refuses, in the "dws" group, naming its list kind and its direction. */
  function ListConvert(k: ListKind, d: Direction): (r: ApiError)
    ensures r.group == "dws"
  {
    MethodNotSupported("dws", KindName(k), DirectionName(d))
  }

  /** The error tells the list conversions apart: each names its own kind and direction. */
  lemma ListErrorsName(k1: ListKind, d1: Direction, k2: ListKind, d2: Direction)
    ensures ListConvert(k1, d1) == ListConvert(k2, d2) <==> k1 == k2 && d1 == d2
  {
  }
}
