/**
 * The reconciler of the client mount daemon
 * (mount-daemon/controllers/clientmount_controller.go): it mounts or
 * unmounts the file systems a ClientMount resource lists, by running
 * shell commands on the host, and records the outcome of each in the
 * resource's status.
 *
 * The host shell is a function from the commands run so far and the next
 * command to that command's output and error, so a command may answer
 * differently once earlier ones changed the host.
 */
module ClientMountController {
  import opened Base
  import opened GoStrings

  /** Lustre device information: the file system name and its MGS addresses. */
  datatype LustreInfo = LustreInfo(fileSystemName: string, mgsAddresses: seq<string>)

  /** The device to mount: its kind ("lustre", "lvm", "reference") and, for Lustre, where to find it. */
  datatype Device = Device(deviceType: string, lustre: LustreInfo)

  /** One mount of the spec (ClientMountInfo): the mount point, the file system type and the device. */
  datatype MountInfo = MountInfo(mountPath: string, fsType: string, device: Device)

  /** The status of one mount (ClientMountInfoStatus). */
  datatype MountStatus = MountStatus(state: string, ready: bool, message: string)

  /** The zero value Go's make gives each status entry. */
  const ZeroStatus := MountStatus("", false, "")

  datatype ClientMountSpec = ClientMountSpec(desiredState: string, mounts: seq<MountInfo>)

  /** The finalizer that keeps a ClientMount until everything it mounted is unmounted. */
  const FinalizerClientMount := "nnf.cray.hpe.com/client_mount"

  /** What one shell command gives back: its output, and an error text when it failed. */
  datatype RunResult = RunResult(output: string, err: Option<string>)

  /** The host: the answer to a command, given the commands run before it. */
  type Shell = (seq<string>, string) -> RunResult

  // ---------------------------------------------------------------------
  // The device string (getDevice)
  // ---------------------------------------------------------------------

  /** Each MGS address followed by ':'. */
  function Addresses(addrs: seq<string>): string
    decreases |addrs|
  {
    if addrs == [] then "" else addrs[0] + ":" + Addresses(addrs[1..])
  }

  /** The device string of the mount command: for Lustre the MGS addresses, then "/" and the file system name; "" otherwise. */
  function DeviceName(info: MountInfo): string {
    if info.device.deviceType == "lustre" then
      Addresses(info.device.lustre.mgsAddresses) + "/" + info.device.lustre.fileSystemName
    else ""
  }

  /** The addresses with a tail are the ':'-joined addresses and tail. */
  lemma {:induction false} AddressesJoin(addrs: seq<string>, tail: string)
    ensures Addresses(addrs) + tail == Join(addrs + [tail], ':')
    decreases |addrs|
  {
    if addrs != [] {
      AddressesJoin(addrs[1..], tail);
      assert (addrs + [tail])[1..] == addrs[1..] + [tail];
      JoinCons(addrs + [tail], ':');
    } else {
      assert addrs + [tail] == [tail];
    }
  }

  /**
   * The Lustre device string loses nothing: when no address and not the
   * file system name holds ':', splitting it at ':' gives the addresses
   * back, followed by "/" and the file system name.
   */
  lemma DeviceSplits(info: MountInfo)
    requires info.device.deviceType == "lustre"
    requires forall k :: 0 <= k < |info.device.lustre.mgsAddresses| ==> ':' !in info.device.lustre.mgsAddresses[k]
    requires ':' !in info.device.lustre.fileSystemName
    ensures Split(DeviceName(info), ':') == info.device.lustre.mgsAddresses + ["/" + info.device.lustre.fileSystemName]
  {
    var addrs := info.device.lustre.mgsAddresses;
    var tail := "/" + info.device.lustre.fileSystemName;
    AddressesJoin(addrs, tail);
    assert DeviceName(info) == Addresses(addrs) + tail;
    var parts := addrs + [tail];
    forall k | 0 <= k < |parts| ensures ':' !in parts[k] {
      if k == |addrs| {
        assert parts[k] == tail;
      } else {
        assert parts[k] == addrs[k];
      }
    }
    SplitJoin(parts, ':');
  }

  // ---------------------------------------------------------------------
  // The `mount` listing (checkMount)
  // ---------------------------------------------------------------------

  /** A line of the `mount` listing shows `path` mounted: its third field is the path. */
  predicate ShowsMount(line: string, path: string) {
    var fields := Fields(line);
    |fields| >= 3 && fields[2] == path
  }

  /** Some line of the listing shows `path` mounted. */
  predicate Listed(output: string, path: string) {
    exists line :: line in Split(output, '\n') && ShowsMount(line, path)
  }

  /** None of the first i lines shows `path` mounted. */
  predicate NoneShows(lines: seq<string>, path: string, i: nat)
    requires i <= |lines|
  {
    forall j :: 0 <= j < i ==> !ShowsMount(lines[j], path)
  }

  /** Scanning one more line that does not show the path. */
  lemma NoneShowsNext(lines: seq<string>, path: string, i: nat)
    requires i < |lines| && NoneShows(lines, path, i) && !ShowsMount(lines[i], path)
    ensures NoneShows(lines, path, i + 1)
  {
  }

  /** A listing with a line that shows the path lists it. */
  lemma ListedAt(output: string, path: string, i: nat)
    requires i < |Split(output, '\n')| && ShowsMount(Split(output, '\n')[i], path)
    ensures Listed(output, path)
  {
    assert Split(output, '\n')[i] in Split(output, '\n');
  }

  /** A listing none of whose lines shows the path does not list it. */
  lemma NotListed(output: string, path: string)
    requires NoneShows(Split(output, '\n'), path, |Split(output, '\n')|)
    ensures !Listed(output, path)
  {
    var lines := Split(output, '\n');
    forall line | line in lines ensures !ShowsMount(line, path) {
      var j :| 0 <= j < |lines| && lines[j] == line;
    }
  }

  /** An empty listing shows nothing mounted. */
  lemma EmptyListing(path: string)
    ensures !Listed("", path)
  {
    SplitSingle("", '\n');
    assert Split("", '\n') == [""];
    assert Fields("") == [];
  }

  /** The commands of mount and unmount. */
  const ListCommand := "mount"

  function MkdirCommand(info: MountInfo): string {
    "mkdir -p " + info.mountPath
  }

  function MountCommand(info: MountInfo): string {
    "mount -t " + info.fsType + " " + DeviceName(info) + " " + info.mountPath
  }

  function UmountCommand(info: MountInfo): string {
    "umount " + info.mountPath
  }

  /** The commands one mount or unmount issued, and its error. */
  datatype Trace = Trace(issued: seq<string>, err: Option<string>)

  /** Mounting or unmounting. */
  datatype Op = Mount | Unmount

  datatype ClientMountStatusUpdateError = Conflict | OtherError(text: string)

  /** What Reconcile returns: whether to requeue and the error. */
  datatype ReconcileResult = ReconcileResult(requeue: bool, err: Option<string>)

  /** What the reconcile loop does before its deferred status update: commands issued, status, finalizers, result. */
  datatype BodyOutcome = BodyOutcome(issued: seq<string>, status: seq<MountStatus>, finalizers: seq<string>, res: ReconcileResult)

  /** A ClientMount resource as the reconciler reads and changes it. */
  class ClientMount {
    var deleting: bool          // the deletion timestamp is set
    var finalizers: seq<string>
    var spec: ClientMountSpec
    var status: seq<MountStatus>

    constructor (deleting: bool, finalizers: seq<string>, spec: ClientMountSpec, status: seq<MountStatus>)
      ensures this.deleting == deleting && this.finalizers == finalizers
      ensures this.spec == spec && this.status == status
    {
      this.deleting := deleting;
      this.finalizers := finalizers;
      this.spec := spec;
      this.status := status;
    }
  }

  /** The status entry after one mount or unmount: failure records the error; success clears the message and sets ready. */
  function Record(s: MountStatus, err: Option<string>): (r: MountStatus)
    ensures err.Some? ==> r == s.(message := err.value)
    ensures err.None? ==> r.message == "" && r.ready && r.state == s.state
  {
    match err
    case Some(e) => s.(message := e)
    case None => s.(message := "", ready := true)
  }

  /** The status after recording the outcome of the first |errs| mounts. */
  function Recorded(status: seq<MountStatus>, errs: seq<Option<string>>): (r: seq<MountStatus>)
    requires |errs| <= |status|
    ensures |r| == |status|
    ensures forall i :: 0 <= i < |errs| ==> r[i] == Record(status[i], errs[i])
    ensures forall i :: |errs| <= i < |status| ==> r[i] == status[i]
  {
    seq(|status|, i requires 0 <= i < |status| => if i < |errs| then Record(status[i], errs[i]) else status[i])
  }

  /** Recording one more outcome changes one entry. */
  lemma RecordedAppend(status: seq<MountStatus>, errs: seq<Option<string>>, err: Option<string>)
    requires |errs| < |status|
    ensures Recorded(status, errs + [err]) == Recorded(status, errs)[|errs| := Record(status[|errs|], err)]
  {
    var a := Recorded(status, errs + [err]);
    var b := Recorded(status, errs)[|errs| := Record(status[|errs|], err)];
    forall i | 0 <= i < |status| ensures a[i] == b[i] {
      if i < |errs| {
        assert (errs + [err])[i] == errs[i];
      }
    }
  }

  /** The first error of a list, if any. */
  function FirstError(errs: seq<Option<string>>): Option<string>
    decreases |errs|
  {
    if errs == [] then None
    else if errs[0].Some? then errs[0]
    else FirstError(errs[1..])
  }

  /** There is no error exactly when every entry is nil; otherwise it is the earliest entry that is not. */
  lemma {:induction false} FirstErrorMeaning(errs: seq<Option<string>>)
    ensures FirstError(errs).None? <==> forall i :: 0 <= i < |errs| ==> errs[i].None?
    ensures FirstError(errs).Some? ==>
      exists i :: 0 <= i < |errs| && errs[i] == FirstError(errs) && forall j :: 0 <= j < i ==> errs[j].None?
    decreases |errs|
  {
    if errs != [] {
      if errs[0].Some? {
        assert errs[0] == FirstError(errs);
      } else {
        FirstErrorMeaning(errs[1..]);
        forall j | 0 < j < |errs| ensures errs[j] == errs[1..][j - 1] {
        }
        if FirstError(errs).Some? {
          var i :| 0 <= i < |errs[1..]| && errs[1..][i] == FirstError(errs) && forall j :: 0 <= j < i ==> errs[1..][j].None?;
          assert errs[i + 1] == FirstError(errs);
        }
      }
    }
  }

  /** The first error of a longer list is the shorter list's, or else the new one. */
  lemma {:induction false} FirstErrorAppend(errs: seq<Option<string>>, err: Option<string>)
    ensures FirstError(errs + [err]) == if FirstError(errs).Some? then FirstError(errs) else err
    decreases |errs|
  {
    if errs != [] {
      assert (errs + [err])[0] == errs[0];
      assert (errs + [err])[1..] == errs[1..] + [err];
      FirstErrorAppend(errs[1..], err);
    } else {
      assert [] + [err] == [err];
      assert [err][1..] == [];
    }
  }

  /** Removes every copy of a finalizer. */
  function Without(fs: seq<string>, f: string): (r: seq<string>)
    ensures f !in r
    ensures forall g :: g in r <==> g in fs && g != f
    decreases |fs|
  {
    if fs == [] then [] else (if fs[0] == f then [] else [fs[0]]) + Without(fs[1..], f)
  }

  /** The status after Reconcile prepares it: resized to one zeroed entry per mount when the lengths differ. */
  function Resized(status: seq<MountStatus>, n: nat): (r: seq<MountStatus>)
    ensures |r| == n
    ensures |status| == n ==> r == status
    ensures |status| != n ==> forall i :: 0 <= i < n ==> r[i] == ZeroStatus
  {
    if |status| != n then seq(n, _ => ZeroStatus) else status
  }

  /** Every entry moved to the desired state, not ready and without a message. */
  function Restarted(status: seq<MountStatus>, desired: string): (r: seq<MountStatus>)
    ensures |r| == |status|
    ensures forall i :: 0 <= i < |r| ==> r[i] == MountStatus(desired, false, "")
  {
    seq(|status|, _ => MountStatus(desired, false, ""))
  }

  /** The status update after mount i: the error as message, or no message and ready. */
  method RecordOutcome(cm: ClientMount, i: nat, err: Option<string>)
    requires i < |cm.status|
    modifies cm
    ensures cm.status == old(cm.status)[i := Record(old(cm.status)[i], err)]
    ensures cm.spec == old(cm.spec) && cm.deleting == old(cm.deleting) && cm.finalizers == old(cm.finalizers)
  {
    if err.Some? {
      cm.status := cm.status[i := cm.status[i].(message := err.value)];
    } else {
      cm.status := cm.status[i := cm.status[i].(message := "", ready := true)];
    }
  }

  /** Taking a prefix of a concatenation that ends inside the first part. */
  lemma PrefixOfAppend<T>(x: seq<T>, y: seq<T>, k: nat)
    requires k <= |x|
    ensures (x + y)[..k] == x[..k]
  {
  }

  /** What one mount or unmount does after the commands before it. */
  type Stepper = (seq<string>, MountInfo) -> Trace

  /** The commands and errors of the first n steps of a sweep over `mounts`, after the commands `h`. */
  function Fold(h: seq<string>, step: Stepper, mounts: seq<MountInfo>, n: nat): (r: (seq<string>, seq<Option<string>>))
    requires n <= |mounts|
    ensures |r.1| == n
    decreases n
  {
    if n == 0 then ([], [])
    else
      var done := Fold(h, step, mounts, n - 1);
      var t := step(h + done.0, mounts[n - 1]);
      (done.0 + t.issued, done.1 + [t.err])
  }

  /** The last step of a sweep adds its commands and its error at the end. */
  lemma FoldLast(h: seq<string>, step: Stepper, mounts: seq<MountInfo>, n: nat) returns (u: Trace)
    requires 0 < n <= |mounts|
    ensures u == step(h + Fold(h, step, mounts, n - 1).0, mounts[n - 1])
    ensures Fold(h, step, mounts, n).0 == Fold(h, step, mounts, n - 1).0 + u.issued
    ensures Fold(h, step, mounts, n).1 == Fold(h, step, mounts, n - 1).1 + [u.err]
  {
    u := step(h + Fold(h, step, mounts, n - 1).0, mounts[n - 1]);
  }

  /** A shorter sweep is a prefix of a longer one, in commands and in errors. */
  lemma {:induction false} FoldPrefix(h: seq<string>, step: Stepper, mounts: seq<MountInfo>, m: nat, n: nat)
    requires m <= n <= |mounts|
    ensures var a, b := Fold(h, step, mounts, m), Fold(h, step, mounts, n);
      |a.0| <= |b.0| && b.0[..|a.0|] == a.0 && b.1[..m] == a.1
    decreases n
  {
    if m < n {
      FoldPrefix(h, step, mounts, m, n - 1);
      var a, d := Fold(h, step, mounts, m), Fold(h, step, mounts, n - 1);
      var u := FoldLast(h, step, mounts, n);
      PrefixOfAppend(d.0, u.issued, |a.0|);
      PrefixOfAppend(d.1, [u.err], m);
    } else {
      var a := Fold(h, step, mounts, m);
      assert a.0[..|a.0|] == a.0 && a.1[..m] == a.1;
    }
  }

  /** Step i of a sweep runs right after the steps before it, its commands follow theirs, and its error is slot i. */
  lemma {:induction false} FoldTriesAll(h: seq<string>, step: Stepper, mounts: seq<MountInfo>, i: nat, n: nat)
    requires i < n <= |mounts|
    ensures var before := Fold(h, step, mounts, i).0;
      var t := step(h + before, mounts[i]);
      var s := Fold(h, step, mounts, n);
      && |before| + |t.issued| <= |s.0|
      && s.0[..|before| + |t.issued|] == before + t.issued
      && s.1[i] == t.err
  {
    var u := FoldLast(h, step, mounts, i + 1);
    FoldPrefix(h, step, mounts, i + 1, n);
    var b, a, s := Fold(h, step, mounts, i), Fold(h, step, mounts, i + 1), Fold(h, step, mounts, n);
    PrefixThenLast(b.0, u.issued, a.0, s.0, b.1, u.err, a.1, s.1);
  }

  /** A prefix that ends with `last` keeps `last` at its own position in any extension. */
  lemma PrefixThenLast<T, E>(before: seq<T>, last: seq<T>, a: seq<T>, b: seq<T>, errs: seq<E>, e: E, ea: seq<E>, eb: seq<E>)
    requires a == before + last && |a| <= |b| && b[..|a|] == a
    requires ea == errs + [e] && |ea| <= |eb| && eb[..|ea|] == ea
    ensures |before| + |last| <= |b| && b[..|before| + |last|] == before + last
    ensures eb[|errs|] == e
  {
    assert eb[|errs|] == eb[..|ea|][|errs|];
  }

  /** The reconciler: mock mode, the host shell and the commands issued so far. */
  class Reconciler {
    const mock: bool
    const shell: Shell
    var issued: seq<string>

    constructor (mock: bool, shell: Shell)
      ensures this.mock == mock && this.shell == shell && issued == []
    {
      this.mock := mock;
      this.shell := shell;
      issued := [];
    }

    /** The answer to a command after the commands `h`: in mock mode always no output and no error. */
    function Answer(h: seq<string>, c: string): (r: RunResult)
      ensures mock ==> r == RunResult("", None)
    {
      if mock then RunResult("", None) else shell(h, c)
    }

    /** What mount (op == Mount) or unmount does to one mount after the commands `h`. */
    function Step(h: seq<string>, op: Op, info: MountInfo): Trace {
      var listing := Answer(h, ListCommand);
      if listing.err.Some? then Trace([ListCommand], listing.err)
      else
        var mounted := Listed(listing.output, info.mountPath);
        match op
        case Mount =>
          if mounted then Trace([ListCommand], None)
          else
            var mkdir := Answer(h + [ListCommand], MkdirCommand(info));
            if mkdir.err.Some? then Trace([ListCommand, MkdirCommand(info)], mkdir.err)
            else
              var run := Answer(h + [ListCommand, MkdirCommand(info)], MountCommand(info));
              Trace([ListCommand, MkdirCommand(info), MountCommand(info)], run.err)
        case Unmount =>
          if !mounted then Trace([ListCommand], None)
          else
            var run := Answer(h + [ListCommand], UmountCommand(info));
            Trace([ListCommand, UmountCommand(info)], run.err)
    }

    /** The commands and errors of the first n mounts of mountAll (op == Mount) or unmountAll, after the commands `h`. */
    function Sweep(h: seq<string>, op: Op, mounts: seq<MountInfo>, n: nat): (r: (seq<string>, seq<Option<string>>))
      requires n <= |mounts|
      ensures |r.1| == n
    {
      Fold(h, StepOf(op), mounts, n)
    }

    /** Step for one direction, as a function of the commands before and the mount. */
    function StepOf(op: Op): Stepper {
      (g: seq<string>, info: MountInfo) => Step(g, op, info)
    }

    /** The whole of mountAll or unmountAll. */
    function SweepAllOf(h: seq<string>, op: Op, mounts: seq<MountInfo>): (seq<string>, seq<Option<string>>) {
      Sweep(h, op, mounts, |mounts|)
    }

    /**
     * One mount or unmount issues, in order, a prefix of its commands:
     * the `mount` listing, then for a mount `mkdir -p` and `mount -t`,
     * for an unmount `umount`; and it issues only the listing, with no
     * error, when there is nothing to do.
     */
    lemma StepCommands(h: seq<string>, op: Op, info: MountInfo)
      ensures var t := Step(h, op, info);
        var all := if op == Mount then [ListCommand, MkdirCommand(info), MountCommand(info)]
                   else [ListCommand, UmountCommand(info)];
        1 <= |t.issued| <= |all| && t.issued == all[..|t.issued|]
      ensures var listing := Answer(h, ListCommand);
        listing.err.None? && (Listed(listing.output, info.mountPath) <==> op == Mount) ==>
          Step(h, op, info) == Trace([ListCommand], None)
      ensures |Step(h, op, info).issued| > 1 ==> Answer(h, ListCommand).err.None?
    {
    }

    /** In mock mode every mount runs all its commands and succeeds, and every unmount only lists. */
    lemma MockSteps(h: seq<string>, info: MountInfo)
      requires mock
      ensures Step(h, Mount, info) == Trace([ListCommand, MkdirCommand(info), MountCommand(info)], None)
      ensures Step(h, Unmount, info) == Trace([ListCommand], None)
    {
      EmptyListing(info.mountPath);
    }

    /**
     * The sweep tries every mount, however many fail: mount i runs right
     * after the commands of the mounts before it, its commands follow
     * theirs, and its error is slot i.
     */
    lemma SweepTriesAll(h: seq<string>, op: Op, mounts: seq<MountInfo>, i: nat, n: nat)
      requires i < n <= |mounts|
      ensures var before := Sweep(h, op, mounts, i).0;
        var t := Step(h + before, op, mounts[i]);
        var s := Sweep(h, op, mounts, n);
        && |before| + |t.issued| <= |s.0|
        && s.0[..|before| + |t.issued|] == before + t.issued
        && s.1[i] == t.err
    {
      FoldTriesAll(h, StepOf(op), mounts, i, n);
    }

    /** The last mount of a sweep adds its commands and its error at the end. */
    lemma SweepLast(h: seq<string>, op: Op, mounts: seq<MountInfo>, n: nat) returns (u: Trace)
      requires 0 < n <= |mounts|
      ensures u == Step(h + Sweep(h, op, mounts, n - 1).0, op, mounts[n - 1])
      ensures Sweep(h, op, mounts, n).0 == Sweep(h, op, mounts, n - 1).0 + u.issued
      ensures Sweep(h, op, mounts, n).1 == Sweep(h, op, mounts, n - 1).1 + [u.err]
    {
      u := FoldLast(h, StepOf(op), mounts, n);
    }

    /** Mount i of a sweep extends the sweep of the mounts before it by one. */
    lemma SweepAdvance(h0: seq<string>, op: Op, mounts: seq<MountInfo>, i: nat, before: seq<string>, after: seq<string>, err: Option<string>)
      requires i < |mounts| && before == h0 + Sweep(h0, op, mounts, i).0
      requires after == before + Step(before, op, mounts[i]).issued && err == Step(before, op, mounts[i]).err
      ensures after == h0 + Sweep(h0, op, mounts, i + 1).0
      ensures Sweep(h0, op, mounts, i + 1).1 == Sweep(h0, op, mounts, i).1 + [err]
    {
      var t := SweepLast(h0, op, mounts, i + 1);
      assert after == h0 + (Sweep(h0, op, mounts, i).0 + t.issued);
    }

    /** An unmount sweep in mock mode issues one listing per mount and no error. */
    lemma {:induction false} MockUnmountSweep(h: seq<string>, mounts: seq<MountInfo>, n: nat)
      requires mock && n <= |mounts|
      ensures var s := Sweep(h, Unmount, mounts, n);
        && |s.0| == n
        && (forall k :: 0 <= k < |s.0| ==> s.0[k] == ListCommand)
        && FirstError(s.1).None?
      decreases n
    {
      if n > 0 {
        MockUnmountSweep(h, mounts, n - 1);
        var done := Sweep(h, Unmount, mounts, n - 1);
        MockSteps(h + done.0, mounts[n - 1]);
        FirstErrorAppend(done.1, None);
      }
    }

    /** run: hands a command to the host shell, or only logs it in mock mode. */
    method Run(c: string) returns (r: RunResult)
      modifies this
      ensures issued == old(issued) + [c]
      ensures r == Answer(old(issued), c)
    {
      if mock {
        issued := issued + [c];
        return RunResult("", None);
      }
      r := shell(issued, c);
      issued := issued + [c];
    }

    /** getDevice: builds the device string of the mount command. */
    method GetDevice(info: MountInfo) returns (device: string, err: Option<string>)
      ensures device == DeviceName(info) && err.None?
    {
      if info.device.deviceType == "lustre" {
        device := "";
        var addrs := info.device.lustre.mgsAddresses;
        for i := 0 to |addrs|
          invariant device + Addresses(addrs[i..]) == Addresses(addrs)
        {
          assert addrs[i..][1..] == addrs[i + 1..];
          device := device + addrs[i] + ":";
        }
        assert addrs[|addrs|..] == [];
        device := device + "/" + info.device.lustre.fileSystemName;
        return device, None;
      }
      return "", None;
    }

    /** checkMount: whether the `mount` listing shows the path mounted; false with the error when listing fails. */
    method CheckMount(mountPath: string) returns (mounted: bool, err: Option<string>)
      modifies this
      ensures issued == old(issued) + [ListCommand]
      ensures var listing := Answer(old(issued), ListCommand);
        && err == listing.err
        && (mounted <==> err.None? && Listed(listing.output, mountPath))
    {
      var r := Run(ListCommand);
      if r.err.Some? {
        return false, r.err;
      }
      var lines := Split(r.output, '\n');
      for i := 0 to |lines|
        invariant issued == old(issued) + [ListCommand]
        invariant NoneShows(lines, mountPath, i)
      {
        var fields := Fields(lines[i]);
        if |fields| >= 3 {
          if fields[2] == mountPath {
            ListedAt(r.output, mountPath, i);
            return true, None;
          }
        }
        NoneShowsNext(lines, mountPath, i);
      }
      NotListed(r.output, mountPath);
      return false, None;
    }

    /** mount: a no-op when already mounted; otherwise creates the mount point and mounts the device on it. */
    method MountOne(info: MountInfo) returns (err: Option<string>)
      modifies this
      ensures issued == old(issued) + Step(old(issued), Mount, info).issued
      ensures err == Step(old(issued), Mount, info).err
    {
      ghost var h := issued;
      var mounted, e := CheckMount(info.mountPath);
      if e.Some? {
        return e;
      }
      if mounted {
        return None;
      }
      var device, e' := GetDevice(info);
      if e'.Some? {
        return e';
      }
      var output := Run("mkdir -p " + info.mountPath);
      if output.err.Some? {
        return output.err;
      }
      var mountCmd := "mount -t " + info.fsType + " " + device + " " + info.mountPath;
      assert mountCmd == MountCommand(info);
      assert h + [ListCommand] + [MkdirCommand(info)] == h + [ListCommand, MkdirCommand(info)];
      output := Run(mountCmd);
      assert issued == h + [ListCommand, MkdirCommand(info), MountCommand(info)];
      if output.err.Some? {
        return output.err;
      }
      return None;
    }

    /** unmount: a no-op when not mounted; otherwise unmounts the path. */
    method UnmountOne(info: MountInfo) returns (err: Option<string>)
      modifies this
      ensures issued == old(issued) + Step(old(issued), Unmount, info).issued
      ensures err == Step(old(issued), Unmount, info).err
    {
      var mounted, e := CheckMount(info.mountPath);
      if e.Some? {
        return e;
      }
      if !mounted {
        return None;
      }
      var output := Run("umount " + info.mountPath);
      if output.err.Some? {
        return output.err;
      }
      return None;
    }

    /**
     * mountAll (op == Mount) and unmountAll: every mount is tried even
     * after a failure; entry i of the status records the outcome of mount i;
     * the result is the first error.
     */
    method SweepAll(cm: ClientMount, op: Op) returns (firstError: Option<string>)
      requires |cm.status| >= |cm.spec.mounts|   // Go indexes Status.Mounts[i] for every spec mount
      modifies this, cm
      ensures var s := SweepAllOf(old(issued), op, old(cm.spec.mounts));
        && issued == old(issued) + s.0
        && firstError == FirstError(s.1)
        && cm.status == Recorded(old(cm.status), s.1)
      ensures cm.spec == old(cm.spec) && cm.deleting == old(cm.deleting) && cm.finalizers == old(cm.finalizers)
    {
      ghost var h0 := issued;
      ghost var st0 := cm.status;
      ghost var errs: seq<Option<string>> := [];
      var mounts := cm.spec.mounts;
      firstError := None;
      for i := 0 to |mounts|
        invariant cm.spec == old(cm.spec) && cm.deleting == old(cm.deleting) && cm.finalizers == old(cm.finalizers)
        invariant issued == h0 + Sweep(h0, op, mounts, i).0
        invariant errs == Sweep(h0, op, mounts, i).1
        invariant firstError == FirstError(errs)
        invariant |mounts| <= |st0| && cm.status == Recorded(st0, errs)
      {
        errs, firstError := SweepNext(cm, op, mounts, i, h0, st0, errs, firstError);
      }
    }

    /** Iteration i of mountAll (op == Mount) or unmountAll: mount i, its status entry, and the first error so far. */
    method SweepNext(cm: ClientMount, op: Op, mounts: seq<MountInfo>, i: nat,
                     ghost h0: seq<string>, ghost st0: seq<MountStatus>, ghost errs: seq<Option<string>>,
                     firstError: Option<string>)
      returns (ghost errs': seq<Option<string>>, firstError': Option<string>)
      requires i < |mounts| <= |st0|
      requires issued == h0 + Sweep(h0, op, mounts, i).0 && errs == Sweep(h0, op, mounts, i).1
      requires firstError == FirstError(errs) && cm.status == Recorded(st0, errs)
      modifies this, cm
      ensures issued == h0 + Sweep(h0, op, mounts, i + 1).0 && errs' == Sweep(h0, op, mounts, i + 1).1
      ensures firstError' == FirstError(errs') && cm.status == Recorded(st0, errs')
      ensures cm.spec == old(cm.spec) && cm.deleting == old(cm.deleting) && cm.finalizers == old(cm.finalizers)
    {
      ghost var before := issued;
      var err := SweepStep(op, mounts[i]);
      SweepAdvance(h0, op, mounts, i, before, issued, err);
      FirstErrorAppend(errs, err);
      RecordedAppend(st0, errs, err);
      errs' := errs + [err];
      firstError' := firstError;
      if err.Some? && firstError.None? {
        firstError' := err;
      }
      RecordOutcome(cm, i, err);
    }

    /** One iteration of mountAll (op == Mount) or unmountAll. */
    method SweepStep(op: Op, info: MountInfo) returns (err: Option<string>)
      modifies this
      ensures issued == old(issued) + Step(old(issued), op, info).issued
      ensures err == Step(old(issued), op, info).err
    {
      if op == Mount {
        err := MountOne(info);
      } else {
        err := UnmountOne(info);
      }
    }

    /**
     * What the reconcile loop does to one ClientMount, up to the deferred
     * status update, as a function of the commands issued before, the
     * resource as read, and the object writer's answer: the commands it
     * issues, the new status, the new finalizers and its result.
     */
    function BodyOf(h: seq<string>, deleting: bool, finalizers: seq<string>, spec: ClientMountSpec,
                    status: seq<MountStatus>, updateErr: Option<string>): (b: BodyOutcome)
      requires !deleting ==> |spec.mounts| > 0
      requires deleting && FinalizerClientMount in finalizers ==> |status| >= |spec.mounts|
      ensures |b.status| == if deleting then |status| else |spec.mounts|
    {
      if deleting then
        if FinalizerClientMount !in finalizers then BodyOutcome([], status, finalizers, ReconcileResult(false, None))
        else
          var s := SweepAllOf(h, Unmount, spec.mounts);
          var e := FirstError(s.1);
          BodyOutcome(s.0, Recorded(status, s.1),
                      if e.None? then Without(finalizers, FinalizerClientMount) else finalizers,
                      ReconcileResult(false, if e.Some? then e else updateErr))
      else
        var st := Resized(status, |spec.mounts|);
        if st[0].state != spec.desiredState then
          BodyOutcome([], Restarted(st, spec.desiredState), finalizers, ReconcileResult(false, None))
        else if FinalizerClientMount !in finalizers then
          BodyOutcome([], st, finalizers + [FinalizerClientMount], ReconcileResult(updateErr.Some?, None))
        else if spec.desiredState == "mounted" || spec.desiredState == "unmounted" then
          var s := SweepAllOf(h, if spec.desiredState == "mounted" then Mount else Unmount, spec.mounts);
          BodyOutcome(s.0, Recorded(st, s.1), finalizers, ReconcileResult(false, FirstError(s.1)))
        else BodyOutcome([], st, finalizers, ReconcileResult(false, None))
    }

    /**
     * A ClientMount being deleted loses its finalizer exactly when every
     * unmount succeeded; only then can the object writer's error surface.
     */
    lemma BodyReleasesFinalizer(h: seq<string>, finalizers: seq<string>, spec: ClientMountSpec,
                                status: seq<MountStatus>, updateErr: Option<string>)
      requires FinalizerClientMount in finalizers && |status| >= |spec.mounts|
      ensures var b := BodyOf(h, true, finalizers, spec, status, updateErr);
        var errs := SweepAllOf(h, Unmount, spec.mounts).1;
        && (FinalizerClientMount !in b.finalizers <==> forall i :: 0 <= i < |errs| ==> errs[i].None?)
        && (FinalizerClientMount !in b.finalizers ==> b.res.err == updateErr)
    {
      FirstErrorMeaning(SweepAllOf(h, Unmount, spec.mounts).1);
    }

    /**
     * A mount or unmount sweep that returns no error leaves every status
     * entry ready and without a message, and the finalizer in place.
     */
    lemma BodySweepReady(h: seq<string>, finalizers: seq<string>, spec: ClientMountSpec,
                         status: seq<MountStatus>, updateErr: Option<string>)
      requires |spec.mounts| > 0 && FinalizerClientMount in finalizers
      requires spec.desiredState == "mounted" || spec.desiredState == "unmounted"
      requires Resized(status, |spec.mounts|)[0].state == spec.desiredState
      ensures var b := BodyOf(h, false, finalizers, spec, status, updateErr);
        && b.finalizers == finalizers
        && (b.res.err.None? ==> forall i :: 0 <= i < |b.status| ==> b.status[i].ready && b.status[i].message == "")
    {
      var s := SweepAllOf(h, if spec.desiredState == "mounted" then Mount else Unmount, spec.mounts);
      FirstErrorMeaning(s.1);
    }

    /**
     * The reconcile loop for one ClientMount, after reading it, up to
     * the deferred status update. The object writer is the API server:
     * its answer is a parameter.
     */
    method ReconcileBody(cm: ClientMount, updateErr: Option<string>) returns (res: ReconcileResult)
      requires !cm.deleting ==> |cm.spec.mounts| > 0   // Go reads Status.Mounts[0], which panics for an empty spec
      requires cm.deleting && FinalizerClientMount in cm.finalizers ==> |cm.status| >= |cm.spec.mounts|   // unmountAll indexes the status unresized
      modifies this, cm
      ensures cm.spec == old(cm.spec) && cm.deleting == old(cm.deleting)
      ensures var b := BodyOf(old(issued), old(cm.deleting), old(cm.finalizers), old(cm.spec), old(cm.status), updateErr);
        && issued == old(issued) + b.issued
        && cm.status == b.status
        && cm.finalizers == b.finalizers
        && res == b.res
    {
      res := ReconcileResult(false, None);
      if cm.deleting {
        if FinalizerClientMount !in cm.finalizers {
          return;
        }
        var err := SweepAll(cm, Unmount);
        if err.Some? {
          return ReconcileResult(false, err);
        }
        cm.finalizers := Without(cm.finalizers, FinalizerClientMount);
        if updateErr.Some? {
          return ReconcileResult(false, updateErr);
        }
        return;
      }
      if |cm.status| != |cm.spec.mounts| {
        cm.status := seq(|cm.spec.mounts|, _ => ZeroStatus);
      }
      if cm.status[0].state != cm.spec.desiredState {
        ghost var st := cm.status;
        for i := 0 to |cm.status|
          invariant |cm.status| == |st| == |cm.spec.mounts|
          invariant cm.spec == old(cm.spec) && cm.deleting == old(cm.deleting) && cm.finalizers == old(cm.finalizers)
          invariant issued == old(issued)
          invariant forall k :: 0 <= k < i ==> cm.status[k] == MountStatus(cm.spec.desiredState, false, "")
        {
          cm.status := cm.status[i := cm.status[i].(state := cm.spec.desiredState)];
          cm.status := cm.status[i := cm.status[i].(ready := false)];
          cm.status := cm.status[i := cm.status[i].(message := "")];
        }
        return;
      }
      if FinalizerClientMount !in cm.finalizers {
        cm.finalizers := cm.finalizers + [FinalizerClientMount];
        if updateErr.Some? {
          return ReconcileResult(true, None);
        }
        return;
      }
      if cm.spec.desiredState == "mounted" {
        var err := SweepAll(cm, Mount);
        return ReconcileResult(false, err);
      } else if cm.spec.desiredState == "unmounted" {
        var err := SweepAll(cm, Unmount);
        return ReconcileResult(false, err);
      }
    }

    /**
     * Reconcile: the body, then the deferred status update, which runs
     * only when the body returned no error, writes the status only when
     * it differs from the snapshot taken before the body, and turns a
     * conflict on that write into success. The status writer's answer is
     * a parameter.
     */
    method Reconcile(cm: ClientMount, updateErr: Option<string>, statusErr: Option<ClientMountStatusUpdateError>)
      returns (res: ReconcileResult, statusWritten: bool, ghost body: ReconcileResult)
      requires !cm.deleting ==> |cm.spec.mounts| > 0
      requires cm.deleting && FinalizerClientMount in cm.finalizers ==> |cm.status| >= |cm.spec.mounts|
      modifies this, cm
      ensures cm.spec == old(cm.spec) && cm.deleting == old(cm.deleting)
      ensures var b := BodyOf(old(issued), old(cm.deleting), old(cm.finalizers), old(cm.spec), old(cm.status), updateErr);
        && issued == old(issued) + b.issued
        && cm.status == b.status
        && cm.finalizers == b.finalizers
        && body == b.res
      ensures (res, statusWritten) == AfterClose(body, cm.status != old(cm.status), statusErr)
    {
      var snapshot := cm.status;
      res := ReconcileBody(cm, updateErr);
      body := res;
      statusWritten := false;
      if res.err.None? {
        var err;
        err, statusWritten := Close(snapshot, cm, statusErr);
        res := res.(err := err);
      }
    }

    /** clientMountStatusUpdater.close: writes a changed status; a conflict is not an error. */
    method Close(snapshot: seq<MountStatus>, cm: ClientMount, statusErr: Option<ClientMountStatusUpdateError>)
      returns (err: Option<string>, written: bool)
      ensures written <==> cm.status != snapshot
      ensures err == (if written then CloseError(statusErr) else None)
    {
      if cm.status != snapshot {
        if statusErr.Some? && statusErr.value.OtherError? {
          return Some(statusErr.value.text), true;
        }
        return None, true;
      }
      return None, false;
    }
  }

  /** The error of a status write: none on success or conflict, the text otherwise. */
  function CloseError(statusErr: Option<ClientMountStatusUpdateError>): (r: Option<string>)
    ensures r.Some? <==> statusErr.Some? && statusErr.value.OtherError?
  {
    if statusErr.Some? && statusErr.value.OtherError? then Some(statusErr.value.text) else None
  }

  /** What Reconcile returns after its deferred status update, and whether the status is written. */
  function AfterClose(body: ReconcileResult, changed: bool, statusErr: Option<ClientMountStatusUpdateError>): (r: (ReconcileResult, bool))
    ensures r.1 <==> body.err.None? && changed
    ensures r.0.requeue == body.requeue
    ensures body.err.Some? ==> r.0.err == body.err
    ensures !changed ==> r.0 == body
  {
    if body.err.None? && changed then (body.(err := CloseError(statusErr)), true) else (body, false)
  }
}
