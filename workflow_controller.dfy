/**
 * The status roll-up of the Workflow reconciler
 * (pkg/controller/workflow/workflow_controller.go): the drivers that
 * registered for the workflow's desired state report whether they are
 * done, and the reconciler sets the workflow's status from them.
 */
module WorkflowController {
  import opened GoStrings

  /** A driver's report (WorkflowDriverStatus). */
  datatype DriverStatus = DriverStatus(
    driverID: string,
    taskID: string,
    dwdIndex: int,
    watchState: string,
    lastHB: int,
    completed: bool,
    reason: string,
    message: string)

  /** The part of WorkflowSpec the reconciler reads. */
  datatype WorkflowSpec = WorkflowSpec(desiredState: string, wlmID: string, jobID: int, userID: int, dwDirectives: seq<string>)

  /** The part of WorkflowStatus the reconciler writes, and the drivers it reads. */
  datatype WorkflowStatus = WorkflowStatus(state: string, ready: bool, reason: string, message: string, drivers: seq<DriverStatus>)

  /** What checkDriverStatus reports: (true, nil), (false, nil) or (true, error). */
  datatype RollUp = Done | Waiting | DriverError(message: string)

  /** The driver watches the desired state. */
  predicate Watches(d: DriverStatus, desired: string) {
    d.watchState == desired
  }

  /** The driver reports an error: its reason is "error" in any ASCII casing. */
  predicate Failed(d: DriverStatus) {
    ToLower(d.reason) == "error"
  }

  /** A watching driver that has neither failed nor finished holds the workflow back. */
  predicate Settled(d: DriverStatus, desired: string) {
    Watches(d, desired) ==> !Failed(d) && d.completed
  }

  /** The roll-up of drivers[i..], scanned in order with the first decisive driver winning. */
  function RollUpFrom(drivers: seq<DriverStatus>, desired: string, i: nat): RollUp
    requires i <= |drivers|
    decreases |drivers| - i
  {
    if i == |drivers| then Done
    else
      var d := drivers[i];
      if Watches(d, desired) && Failed(d) then DriverError(d.message)
      else if Watches(d, desired) && !d.completed then Waiting
      else RollUpFrom(drivers, desired, i + 1)
  }

  /** The roll-up of all the drivers. */
  function DriverRollUp(drivers: seq<DriverStatus>, desired: string): RollUp {
    RollUpFrom(drivers, desired, 0)
  }

  /** Every driver of drivers[i..j] is settled. */
  predicate SettledBetween(drivers: seq<DriverStatus>, desired: string, i: nat, j: nat)
    requires i <= j <= |drivers|
  {
    forall k :: i <= k < j ==> Settled(drivers[k], desired)
  }

  /**
   * The roll-up decided by the first unsettled driver: Done when every
   * driver is settled; otherwise, for the first unsettled driver, the
   * error with its message when it failed, and Waiting when it only has
   * not completed.
   */
  lemma {:induction false} RollUpFromMeaning(drivers: seq<DriverStatus>, desired: string, i: nat)
    requires i <= |drivers|
    ensures RollUpFrom(drivers, desired, i) == Done <==> SettledBetween(drivers, desired, i, |drivers|)
    ensures RollUpFrom(drivers, desired, i) != Done ==>
      exists k :: i <= k < |drivers| && FirstUnsettled(drivers, desired, i, k)
        && RollUpFrom(drivers, desired, i) == Verdict(drivers[k])
    decreases |drivers| - i
  {
    if i < |drivers| {
      RollUpFromMeaning(drivers, desired, i + 1);
      var d := drivers[i];
      if Settled(d, desired) {
        if RollUpFrom(drivers, desired, i) != Done {
          var k :| i + 1 <= k < |drivers| && FirstUnsettled(drivers, desired, i + 1, k)
            && RollUpFrom(drivers, desired, i + 1) == Verdict(drivers[k]);
          assert FirstUnsettled(drivers, desired, i, k);
        }
      } else {
        assert FirstUnsettled(drivers, desired, i, i);
      }
    }
  }

  /** k is the first driver of drivers[i..] that is not settled. */
  predicate FirstUnsettled(drivers: seq<DriverStatus>, desired: string, i: nat, k: nat)
    requires i <= k < |drivers|
  {
    !Settled(drivers[k], desired) && SettledBetween(drivers, desired, i, k)
  }

  /** The roll-up an unsettled driver decides. */
  function Verdict(d: DriverStatus): RollUp {
    if Failed(d) then DriverError(d.message) else Waiting
  }

  /**
   * checkDriverStatus, stated outright: the workflow is done exactly when
   * every driver watching the desired state has completed without error;
   * otherwise the first such driver that has not decides, an error
   * carrying its message when it failed (even if a later one only waits,
   * and a later error goes unreported after an earlier wait).
   */
  lemma DriverRollUpMeaning(drivers: seq<DriverStatus>, desired: string)
    ensures DriverRollUp(drivers, desired) == Done <==>
      forall k :: 0 <= k < |drivers| ==> Settled(drivers[k], desired)
    ensures DriverRollUp(drivers, desired) != Done ==>
      exists k :: 0 <= k < |drivers| && FirstUnsettled(drivers, desired, 0, k)
        && DriverRollUp(drivers, desired) == Verdict(drivers[k])
  {
    RollUpFromMeaning(drivers, desired, 0);
  }

  /** The first unsettled driver decides the roll-up: its error, or Waiting. */
  lemma RollUpDecidedByFirst(drivers: seq<DriverStatus>, desired: string, k: nat)
    requires k < |drivers| && FirstUnsettled(drivers, desired, 0, k)
    ensures DriverRollUp(drivers, desired) == Verdict(drivers[k])
  {
    RollUpFromMeaning(drivers, desired, 0);
    if DriverRollUp(drivers, desired) != Done {
      var k' :| 0 <= k' < |drivers| && FirstUnsettled(drivers, desired, 0, k')
        && DriverRollUp(drivers, desired) == Verdict(drivers[k']);
    }
  }

  /** Drivers that watch other states never change the roll-up. */
  lemma {:induction false} OtherStatesIgnored(drivers: seq<DriverStatus>, d: DriverStatus, desired: string, i: nat)
    requires i <= |drivers| && !Watches(d, desired)
    ensures DriverRollUp(drivers[..i] + [d] + drivers[i..], desired) == DriverRollUp(drivers, desired)
  {
    var ext := drivers[..i] + [d] + drivers[i..];
    RollUpShift(drivers, d, ext, desired, i, 0);
  }

  /** Helper of OtherStatesIgnored: from position j, the extended list lags the original by one past i. */
  lemma {:induction false} RollUpShift(drivers: seq<DriverStatus>, d: DriverStatus, ext: seq<DriverStatus>, desired: string, i: nat, j: nat)
    requires i <= |drivers| && j <= i
    requires ext == drivers[..i] + [d] + drivers[i..] && !Watches(d, desired)
    ensures RollUpFrom(ext, desired, j) == RollUpFrom(drivers, desired, j)
    decreases i - j
  {
    if j < i {
      assert ext[j] == drivers[j];
      RollUpShift(drivers, d, ext, desired, i, j + 1);
    } else {
      assert ext[i] == d;
      RollUpTail(drivers, d, ext, desired, i, i);
    }
  }

  lemma {:induction false} RollUpTail(drivers: seq<DriverStatus>, d: DriverStatus, ext: seq<DriverStatus>, desired: string, i: nat, j: nat)
    requires i <= j <= |drivers|
    requires ext == drivers[..i] + [d] + drivers[i..] && !Watches(d, desired)
    ensures RollUpFrom(ext, desired, j + 1) == RollUpFrom(drivers, desired, j)
    ensures j == i ==> RollUpFrom(ext, desired, i) == RollUpFrom(drivers, desired, i)
    decreases |drivers| - j
  {
    if j < |drivers| {
      assert ext[j + 1] == drivers[j];
      RollUpTail(drivers, d, ext, desired, i, j + 1);
    }
  }

  /** checkDriverStatus: scans the drivers in order and returns at the first one that decides. */
  method CheckDriverStatus(drivers: seq<DriverStatus>, desired: string) returns (r: RollUp)
    ensures r == DriverRollUp(drivers, desired)
  {
    for i := 0 to |drivers|
      invariant RollUpFrom(drivers, desired, i) == DriverRollUp(drivers, desired)
    {
      var d := drivers[i];
      if d.watchState == desired {
        if ToLower(d.reason) == "error" {
          return DriverError(d.message);
        }
        if !d.completed {
          return Waiting;
        }
      }
    }
    return Done;
  }

  /**
   * The status Reconcile writes: State becomes the desired state; on a
   * driver error the workflow is not ready for reason "ERROR" with the
   * driver's message; when done it is ready for reason "Completed", and
   * otherwise not ready for reason "DriverWait".
   */
  function NextStatus(status: WorkflowStatus, desired: string, r: RollUp): (s: WorkflowStatus)
    ensures s.state == desired && s.drivers == status.drivers
    ensures s.ready <==> r == Done
    ensures r.DriverError? ==> s.reason == "ERROR" && s.message == r.message
    ensures r == Done ==> s.reason == "Completed" && s.message == "Workflow " + desired + " completed successfully"
    ensures r == Waiting ==> s.reason == "DriverWait" && s.message == "Workflow " + desired + " waiting for driver completion"
  {
    match r
    case DriverError(m) => status.(state := desired, ready := false, reason := "ERROR", message := m)
    case Done => status.(state := desired, ready := true, reason := "Completed",
                         message := "Workflow " + desired + " completed successfully")
    case Waiting => status.(state := desired, ready := false, reason := "DriverWait",
                            message := "Workflow " + desired + " waiting for driver completion")
  }

  /** The workflow is ready after reconciling exactly when every driver for its desired state completed without error. */
  lemma ReadyMeansSettled(status: WorkflowStatus, desired: string)
    ensures NextStatus(status, desired, DriverRollUp(status.drivers, desired)).ready <==>
      forall k :: 0 <= k < |status.drivers| ==> Settled(status.drivers[k], desired)
  {
    DriverRollUpMeaning(status.drivers, desired);
  }

  /** Reconciling twice writes what reconciling once did. */
  lemma NextStatusIdempotent(status: WorkflowStatus, desired: string)
    ensures var s := NextStatus(status, desired, DriverRollUp(status.drivers, desired));
      NextStatus(s, desired, DriverRollUp(s.drivers, desired)) == s
  {
  }

  /** A Workflow resource, whose status the reconciler updates in place. */
  class Workflow {
    var spec: WorkflowSpec
    var status: WorkflowStatus

    constructor (spec: WorkflowSpec, status: WorkflowStatus)
      ensures this.spec == spec && this.status == status
    {
      this.spec := spec;
      this.status := status;
    }

    /** The status block of Reconcile, between reading the workflow and writing it back. */
    method UpdateStatus()
      modifies this
      ensures spec == old(spec)
      ensures status == NextStatus(old(status), spec.desiredState, DriverRollUp(old(status).drivers, spec.desiredState))
    {
      var driverDone := CheckDriverStatus(status.drivers, spec.desiredState);
      if driverDone.DriverError? {
        status := status.(state := spec.desiredState);
        status := status.(ready := false);
        status := status.(reason := "ERROR");
        status := status.(message := driverDone.message);
      } else {
        status := status.(state := spec.desiredState);
        if driverDone == Done {
          status := status.(ready := true);
          status := status.(reason := "Completed");
          status := status.(message := "Workflow " + status.state + " completed successfully");
        } else {
          status := status.(ready := false);
          status := status.(reason := "DriverWait");
          status := status.(message := "Workflow " + status.state + " waiting for driver completion");
        }
      }
    }
  }
}
