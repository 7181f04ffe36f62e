/**
 * The status updater of the DWS API (api/v1alpha1/status_updater.go): it
 * takes a deep copy of a resource's status when it is created and, when
 * closed, writes the resource back only if the status has changed since,
 * through either the object writer or the status writer, treating a
 * write conflict as success because the reconciler will run again.
 */
module StatusUpdaters {
  import opened Base

  /** The two ways of writing a resource back: Update on the client, or Update on client.Status(). */
  datatype Channel = ObjectWriter | StatusWriter

  /** What an Update call can fail with. */
  datatype UpdateError = Conflict | Other(text: string)

  /** One write the API server received: the channel and the status it carried. */
  datatype Write<S> = Write(channel: Channel, status: S)

  /** A resource with a status of type S, which the reconciler changes in place. */
  class Resource<S> {
    var status: S

    constructor (status: S)
      ensures this.status == status
    {
      this.status := status;
    }
  }

  /** The API server as the updater sees it: the answer it gives to an Update, and the writes it has received. */
  class Client<S> {
    const answer: Option<UpdateError>
    var log: seq<Write<S>>

    constructor (answer: Option<UpdateError>)
      ensures this.answer == answer && log == []
    {
      this.answer := answer;
      log := [];
    }

    /** Update through one channel: records the write and answers. */
    method Update(channel: Channel, status: S) returns (err: Option<UpdateError>)
      modifies this
      ensures log == old(log) + [Write(channel, status)]
      ensures err == answer
    {
      log := log + [Write(channel, status)];
      err := answer;
    }
  }

  /** What close returns: nothing for an unchanged status, and otherwise the answer to the write unless it is a conflict. */
  function Outcome(changed: bool, answer: Option<UpdateError>): (r: Option<UpdateError>)
    ensures r.Some? <==> changed && answer.Some? && answer.value.Other?
    ensures r.Some? ==> r == answer
  {
    if changed && answer != Some(Conflict) then answer else None
  }

  /** The writes close makes: one through its channel, carrying the current status, or none when the status is unchanged. */
  function Writes<S>(changed: bool, channel: Channel, status: S): (r: seq<Write<S>>)
    ensures |r| == if changed then 1 else 0
    ensures forall w :: w in r ==> w.channel == channel && w.status == status
  {
    if changed then [Write(channel, status)] else []
  }

  /** The number of writes through one channel. */
  function CountOn<S>(log: seq<Write<S>>, channel: Channel): nat {
    if log == [] then 0
    else (if log[0].channel == channel then 1 else 0) + CountOn(log[1..], channel)
  }

  /** Counting writes splits over concatenation. */
  lemma {:induction false} CountOnAppend<S>(a: seq<Write<S>>, b: seq<Write<S>>, channel: Channel)
    ensures CountOn(a + b, channel) == CountOn(a, channel) + CountOn(b, channel)
    decreases |a|
  {
    if a != [] {
      assert (a + b)[0] == a[0];
      assert (a + b)[1..] == a[1..] + b;
      CountOnAppend(a[1..], b, channel);
    } else {
      assert a + b == b;
    }
  }

  /**
   * close through one channel adds exactly one write on that channel when
   * the status changed, none otherwise, and never one on the other channel.
   */
  lemma WritesOnlyThrough<S>(log: seq<Write<S>>, changed: bool, channel: Channel, other: Channel, status: S)
    requires other != channel
    ensures CountOn(log + Writes(changed, channel, status), channel) == CountOn(log, channel) + (if changed then 1 else 0)
    ensures CountOn(log + Writes(changed, channel, status), other) == CountOn(log, other)
  {
    var w := Writes(changed, channel, status);
    CountOnAppend(log, w, channel);
    CountOnAppend(log, w, other);
    if changed {
      assert w[1..] == [];
    }
  }

  /** An unchanged status never fails, whatever the server would answer; a conflict never fails either. */
  lemma QuietOutcomes(answer: Option<UpdateError>)
    ensures Outcome(false, answer) == None
    ensures Outcome(true, Some(Conflict)) == None
    ensures Outcome(true, None) == None
  {
  }

  /** The updater: the resource and the copy of its status taken at creation. */
  class StatusUpdater<S(==)> {
    const resource: Resource<S>
    const snapshot: S

    /** NewStatusUpdater: remembers the resource and a copy of its status. */
    constructor (rsrc: Resource<S>)
      ensures resource == rsrc && snapshot == rsrc.status
    {
      resource := rsrc;
      snapshot := rsrc.status;
    }

    /** close: writes the resource through the channel when its status differs from the snapshot. */
    method Close(c: Client<S>, channel: Channel) returns (err: Option<UpdateError>)
      modifies c
      ensures c.log == old(c.log) + Writes(resource.status != snapshot, channel, resource.status)
      ensures err == Outcome(resource.status != snapshot, c.answer)
    {
      err := None;
      if resource.status != snapshot {
        var e := c.Update(channel, resource.status);
        if e != Some(Conflict) {
          err := e;
        }
      }
    }

    /** CloseWithUpdate: close through the object writer. */
    method CloseWithUpdate(c: Client<S>) returns (err: Option<UpdateError>)
      modifies c
      ensures c.log == old(c.log) + Writes(resource.status != snapshot, ObjectWriter, resource.status)
      ensures err == Outcome(resource.status != snapshot, c.answer)
    {
      err := Close(c, ObjectWriter);
    }

    /** CloseWithStatusUpdate: close through the status writer. */
    method CloseWithStatusUpdate(c: Client<S>) returns (err: Option<UpdateError>)
      modifies c
      ensures c.log == old(c.log) + Writes(resource.status != snapshot, StatusWriter, resource.status)
      ensures err == Outcome(resource.status != snapshot, c.answer)
    {
      err := Close(c, StatusWriter);
    }
  }

  /** The status of the repository's test object. */
  datatype TestStatus = TestStatus(changed: bool, updated: bool)

  /**
   * The repository's scenario: create an updater, set the status's
   * `changed` flag, close through one channel; the count of writes on
   * each channel. The snapshot stays the status at creation, so the
   * write happens exactly when the flag was set.
   */
  method Scenario(changed: bool, channel: Channel) returns (objectWrites: nat, statusWrites: nat, snapshotKept: bool)
    ensures objectWrites == if changed && channel == ObjectWriter then 1 else 0
    ensures statusWrites == if changed && channel == StatusWriter then 1 else 0
    ensures snapshotKept
  {
    var obj := new Resource(TestStatus(false, false));
    var updater := new StatusUpdater(obj);
    obj.status := obj.status.(changed := changed);
    snapshotKept := updater.snapshot == TestStatus(false, false);
    var c := new Client<TestStatus>(None);
    var err;
    if channel == ObjectWriter {
      err := updater.CloseWithUpdate(c);
      WritesOnlyThrough([], changed, ObjectWriter, StatusWriter, obj.status);
    } else {
      err := updater.CloseWithStatusUpdate(c);
      WritesOnlyThrough([], changed, StatusWriter, ObjectWriter, obj.status);
    }
    assert [] + c.log == c.log;
    objectWrites := CountOn(c.log, ObjectWriter);
    statusWrites := CountOn(c.log, StatusWriter);
  }
}
