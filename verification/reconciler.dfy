/**
 * The custom-field reconciler `updateJobCustomFields` (main.go:383-422).
 *
 * The HTTP calls are replaced by a fixed server snapshot (what listing each
 * job's fields would return; a job missing from the snapshot is a listing
 * that fails), by the set of updates and creates whose transport fails, and
 * by the trace of requests the reconciler issues. The per-job cache of the
 * source is threaded through the fold explicitly.
 */
module Reconciler {
  import opened Wrappers
  import opened Hosts
  import opened CustomFields

  /** What listing each job's custom fields returns; a job absent here makes the listing fail. */
  type Snapshot = map<int, seq<JobCustomField>>

  /** One job's existing fields, keyed by name. */
  type NameIndex = map<string, JobCustomField>

  /** Job id to the name index built from that job's single listing. */
  type Cache = map<int, NameIndex>

  /** A request the reconciler sends. */
  datatype Action =
    | List(jobId: int)                                 // GET  JobCustomFields?$filter=HandoffId eq jobId
    | Update(fieldId: int, payload: JobCustomField)    // PATCH JobCustomFields(fieldId)
    | Create(field: JobCustomField)                    // POST JobCustomFields

  /**
   * How a pass ends. The source calls `log.Fatal` when a listing fails
   * (main.go:395-397) and when an update or create cannot be built or gets no
   * response, a timeout included (main.go:432-443, 473-484); the trace then
   * ends with that request. The status and body of an update or create
   * response are only printed or discarded, so they never end a pass.
   */
  datatype PassOutcome =
    | Completed(trace: seq<Action>)
    | ListFailed(trace: seq<Action>, jobId: int)
    | WriteFailed(trace: seq<Action>, request: Action)

  function Prepend(prefix: seq<Action>, outcome: PassOutcome): (r: PassOutcome)
    ensures r.Completed? == outcome.Completed? && r.ListFailed? == outcome.ListFailed?
    ensures r.trace == prefix + outcome.trace
  {
    match outcome
    case Completed(t) => Completed(prefix + t)
    case ListFailed(t, j) => ListFailed(prefix + t, j)
    case WriteFailed(t, a) => WriteFailed(prefix + t, a)
  }

  // ---------------------------------------------------------------------------
  // The name index of one listing (main.go:400-403)
  // ---------------------------------------------------------------------------

  predicate HasName(fields: seq<JobCustomField>, name: string)
  {
    exists i :: 0 <= i < |fields| && fields[i].Name == name
  }

  /** `i` is the position of the last field called `name`. */
  predicate IsLastNamed(fields: seq<JobCustomField>, i: int, name: string)
  {
    && 0 <= i < |fields|
    && fields[i].Name == name
    && forall k :: i < k < |fields| ==> fields[k].Name != name
  }

  /**
   * The listing keyed by name, filled in list order so that of several
   * fields with one name the last one is kept.
   */
  function IndexByName(fields: seq<JobCustomField>): (index: NameIndex)
    ensures forall name :: name in index <==> HasName(fields, name)
    ensures forall name :: name in index ==> exists i :: IsLastNamed(fields, i, name) && index[name] == fields[i]
    decreases |fields|
  {
    if |fields| == 0 then map[]
    else
      var n := |fields| - 1;
      var earlier := IndexByName(fields[..n]);
      assert forall name, i :: IsLastNamed(fields[..n], i, name) && name != fields[n].Name ==> IsLastNamed(fields, i, name);
      assert IsLastNamed(fields, n, fields[n].Name);
      earlier[fields[n].Name := fields[n]]
  }

  // ---------------------------------------------------------------------------
  // The per-field decision (main.go:407-418)
  // ---------------------------------------------------------------------------

  /** The value-only patch: the Go zero value with just `Value` filled in. */
  function UpdatesOnly(value: string): JobCustomField
  {
    ZeroField.(Value := value)
  }

  /** Update the existing field of that name by its id, or create the desired field as it is. */
  function Decide(index: NameIndex, field: JobCustomField): Action
  {
    if field.Name in index then Update(index[field.Name].CustomFieldId, UpdatesOnly(field.Value))
    else Create(field)
  }

  /**
   * What the source promises for one desired field against its job's
   * listing: when some listed field has exactly that name, a patch addressed
   * by the last such field whose payload has no member set but `Value`;
   * otherwise a create carrying the desired field unchanged.
   */
  predicate Handles(listing: seq<JobCustomField>, field: JobCustomField, action: Action)
  {
    if HasName(listing, field.Name) then
      && action.Update?
      && action.payload.Value == field.Value
      && action.payload.(Value := "") == ZeroField
      && exists i :: 0 <= i < |listing| && IsLastNamed(listing, i, field.Name) && action.fieldId == listing[i].CustomFieldId
    else
      action == Create(field)
  }

  lemma DecideHandles(listing: seq<JobCustomField>, field: JobCustomField)
    ensures Handles(listing, field, Decide(IndexByName(listing), field))
  {
  }

  // ---------------------------------------------------------------------------
  // The fold when every update and create gets through (main.go:384-421)
  // ---------------------------------------------------------------------------

  /**
   * Handles `pending` in order with `cache` holding the name indexes of the
   * jobs listed so far. A job not yet cached is listed once and its index
   * cached, even when the listing is empty; creates never touch the cache.
   */
  function ReconcileFrom(snapshot: Snapshot, cache: Cache, pending: seq<JobCustomField>): PassOutcome
    decreases |pending|
  {
    if |pending| == 0 then Completed([])
    else
      var field := pending[0];
      var job := field.HandoffId;
      if job in cache then
        Prepend([Decide(cache[job], field)], ReconcileFrom(snapshot, cache, pending[1..]))
      else if job !in snapshot then
        ListFailed([List(job)], job)
      else
        var index := IndexByName(snapshot[job]);
        Prepend([List(job), Decide(index, field)], ReconcileFrom(snapshot, cache[job := index], pending[1..]))
  }

  /** One reconciliation pass whose writes all get through, starting with an empty cache. */
  function Reconcile(snapshot: Snapshot, desired: seq<JobCustomField>): PassOutcome
  {
    ReconcileFrom(snapshot, map[], desired)
  }

  // ---------------------------------------------------------------------------
  // The pass as the source runs it, where a write can fail (main.go:383-484)
  // ---------------------------------------------------------------------------

  /** An update or create the server never answers. */
  predicate Undelivered(undelivered: set<Action>, action: Action)
  {
    !action.List? && action in undelivered
  }

  /** Every update and create of the trace gets through. */
  predicate AllDelivered(undelivered: set<Action>, trace: seq<Action>)
  {
    forall i :: 0 <= i < |trace| ==> !Undelivered(undelivered, trace[i])
  }

  /** Position `i` holds the first write of the trace that does not get through. */
  predicate FirstUndelivered(undelivered: set<Action>, trace: seq<Action>, i: int)
  {
    && 0 <= i < |trace|
    && Undelivered(undelivered, trace[i])
    && forall k :: 0 <= k < i ==> !Undelivered(undelivered, trace[k])
  }

  /**
   * Like `ReconcileFrom`, except that an update or create in `undelivered`
   * ends the pass right after it is sent, as `log.Fatal` in
   * `updateJobCustomField` and `createJobCustomField` does.
   */
  function RunFrom(snapshot: Snapshot, undelivered: set<Action>, cache: Cache, pending: seq<JobCustomField>): PassOutcome
    decreases |pending|
  {
    if |pending| == 0 then Completed([])
    else
      var field := pending[0];
      var job := field.HandoffId;
      if job in cache then
        var write := Decide(cache[job], field);
        if write in undelivered then WriteFailed([write], write)
        else Prepend([write], RunFrom(snapshot, undelivered, cache, pending[1..]))
      else if job !in snapshot then
        ListFailed([List(job)], job)
      else
        var index := IndexByName(snapshot[job]);
        var write := Decide(index, field);
        if write in undelivered then WriteFailed([List(job), write], write)
        else Prepend([List(job), write], RunFrom(snapshot, undelivered, cache[job := index], pending[1..]))
  }

  /** One pass of `updateJobCustomFields`, starting with an empty cache. */
  function Run(snapshot: Snapshot, undelivered: set<Action>, desired: seq<JobCustomField>): PassOutcome
  {
    RunFrom(snapshot, undelivered, map[], desired)
  }

  /**
   * The loop of the source, with its mutable cache and the requests appended
   * as they are sent; it computes exactly the fold `Run`.
   */
  method UpdateJobCustomFields(snapshot: Snapshot, undelivered: set<Action>, desired: seq<JobCustomField>)
    returns (outcome: PassOutcome)
    ensures outcome == Run(snapshot, undelivered, desired)
  {
    var cache: Cache := map[];
    var trace: seq<Action> := [];
    var i := 0;
    while i < |desired|
      invariant 0 <= i <= |desired|
      invariant Prepend(trace, RunFrom(snapshot, undelivered, cache, desired[i..])) == Run(snapshot, undelivered, desired)
    {
      var field := desired[i];
      var job := field.HandoffId;
      assert desired[i..][0] == field;
      assert desired[i..][1..] == desired[i + 1..];
      var sent: seq<Action>;
      var write: Action;
      if job in cache {
        write := Decide(cache[job], field);
        sent := [write];
      } else {
        if job !in snapshot {
          return ListFailed(trace + [List(job)], job);
        }
        var index := IndexByName(snapshot[job]);
        write := Decide(index, field);
        sent := [List(job), write];
        cache := cache[job := index];
      }
      if write in undelivered {
        return WriteFailed(trace + sent, write);
      }
      PrependTwice(trace, sent, RunFrom(snapshot, undelivered, cache, desired[i + 1..]));
      trace := trace + sent;
      i := i + 1;
    }
    return Completed(trace);
  }

  lemma PrependTwice(first: seq<Action>, second: seq<Action>, outcome: PassOutcome)
    ensures Prepend(first, Prepend(second, outcome)) == Prepend(first + second, outcome)
  {
  }

  // ---------------------------------------------------------------------------
  // Reference notions for the properties
  // ---------------------------------------------------------------------------

  /** The cache holds, for each job in it, the name index of that job's listing. */
  predicate Consistent(snapshot: Snapshot, cache: Cache)
  {
    forall job :: job in cache ==> job in snapshot && cache[job] == IndexByName(snapshot[job])
  }

  /** Every job the fields belong to can be listed. */
  predicate AllListable(snapshot: Snapshot, fields: seq<JobCustomField>)
  {
    forall k :: 0 <= k < |fields| ==> fields[k].HandoffId in snapshot
  }

  /** The distinct job ids among the fields. */
  function JobsOf(fields: seq<JobCustomField>): set<int>
  {
    set k | 0 <= k < |fields| :: fields[k].HandoffId
  }

  /** Field `k` is the first one of its job. */
  predicate FirstOfJob(fields: seq<JobCustomField>, k: int)
    requires 0 <= k < |fields|
  {
    forall i :: 0 <= i < k ==> fields[i].HandoffId != fields[k].HandoffId
  }

  /** Field `k` is the first whose job cannot be listed. */
  predicate FirstUnlistable(snapshot: Snapshot, fields: seq<JobCustomField>, k: int)
  {
    && 0 <= k < |fields|
    && fields[k].HandoffId !in snapshot
    && forall i :: 0 <= i < k ==> fields[i].HandoffId in snapshot
  }

  /** The requests other than listings, in order. */
  function Decisions(trace: seq<Action>): (decisions: seq<Action>)
    ensures forall a :: a in decisions <==> a in trace && !a.List?
    decreases |trace|
  {
    if |trace| == 0 then []
    else if trace[0].List? then Decisions(trace[1..])
    else [trace[0]] + Decisions(trace[1..])
  }

  /**
   * The trace written out position by position: a listing right before the
   * first field of each job, then one decision per field.
   */
  function ExpectedTrace(snapshot: Snapshot, desired: seq<JobCustomField>, i: nat): seq<Action>
    requires i <= |desired| && AllListable(snapshot, desired)
    decreases |desired| - i
  {
    if i == |desired| then []
    else
      var field := desired[i];
      (if FirstOfJob(desired, i) then [List(field.HandoffId)] else [])
      + [Decide(IndexByName(snapshot[field.HandoffId]), field)]
      + ExpectedTrace(snapshot, desired, i + 1)
  }

  // ---------------------------------------------------------------------------
  // How a failed write cuts a pass short
  // ---------------------------------------------------------------------------

  /**
   * The outcome of a pass whose writes all got through, ended instead at its
   * first update or create in `undelivered`.
   */
  function StopAtUndelivered(undelivered: set<Action>, outcome: PassOutcome): (r: PassOutcome)
    ensures AllDelivered(undelivered, outcome.trace) ==> r == outcome
    ensures r.Completed? <==> outcome.Completed? && AllDelivered(undelivered, outcome.trace)
    decreases |outcome.trace|
  {
    if |outcome.trace| == 0 then outcome
    else
      var trace := outcome.trace;
      var a := trace[0];
      if Undelivered(undelivered, a) then WriteFailed([a], a)
      else
        assert [a] + trace[1..] == trace;
        assert AllDelivered(undelivered, trace) <==> AllDelivered(undelivered, trace[1..]) by {
          assert forall i :: 0 < i < |trace| ==> trace[i] == trace[1..][i - 1];
        }
        Prepend([a], StopAtUndelivered(undelivered, outcome.(trace := trace[1..])))
  }

  /** Where a pass is cut: right after its first undelivered write, keeping what came before. */
  lemma {:induction false} StopAtFirstUndelivered(undelivered: set<Action>, outcome: PassOutcome, i: nat)
    requires FirstUndelivered(undelivered, outcome.trace, i)
    ensures StopAtUndelivered(undelivered, outcome) == WriteFailed(outcome.trace[..i + 1], outcome.trace[i])
    decreases i
  {
    var trace := outcome.trace;
    if i == 0 {
      assert trace[..1] == [trace[0]];
    } else {
      var rest := outcome.(trace := trace[1..]);
      assert FirstUndelivered(undelivered, rest.trace, i - 1) by {
        assert forall k :: 0 <= k < i - 1 ==> rest.trace[k] == trace[k + 1];
      }
      StopAtFirstUndelivered(undelivered, rest, i - 1);
      assert [trace[0]] + rest.trace[..i] == trace[..i + 1];
    }
  }

  /** Stopping a pass with one more request in front. */
  lemma StopAfterPrepend(undelivered: set<Action>, a: Action, outcome: PassOutcome)
    ensures StopAtUndelivered(undelivered, Prepend([a], outcome))
      == if Undelivered(undelivered, a) then WriteFailed([a], a)
         else Prepend([a], StopAtUndelivered(undelivered, outcome))
  {
    var prefixed := Prepend([a], outcome);
    assert prefixed.trace[1..] == outcome.trace;
    assert prefixed.(trace := prefixed.trace[1..]) == outcome;
  }

  /**
   * The pass as the source runs it is the pass whose writes all get through,
   * cut short at its first undelivered update or create.
   */
  lemma {:induction false} RunStopsAtUndelivered(snapshot: Snapshot, undelivered: set<Action>, cache: Cache, pending: seq<JobCustomField>)
    ensures RunFrom(snapshot, undelivered, cache, pending)
      == StopAtUndelivered(undelivered, ReconcileFrom(snapshot, cache, pending))
    decreases |pending|
  {
    if |pending| > 0 {
      var job := pending[0].HandoffId;
      if job in cache {
        RunStopsAtUndelivered(snapshot, undelivered, cache, pending[1..]);
        StopCachedStep(snapshot, undelivered, cache, pending);
      } else if job !in snapshot {
        StopAfterPrepend(undelivered, List(job), ListFailed([], job));
      } else {
        RunStopsAtUndelivered(snapshot, undelivered, cache[job := IndexByName(snapshot[job])], pending[1..]);
        StopListedStep(snapshot, undelivered, cache, pending);
      }
    }
  }

  /** One step of both folds for a field whose job is cached. */
  lemma StopCachedStep(snapshot: Snapshot, undelivered: set<Action>, cache: Cache, pending: seq<JobCustomField>)
    requires |pending| >= 1 && pending[0].HandoffId in cache
    requires RunFrom(snapshot, undelivered, cache, pending[1..])
      == StopAtUndelivered(undelivered, ReconcileFrom(snapshot, cache, pending[1..]))
    ensures RunFrom(snapshot, undelivered, cache, pending)
      == StopAtUndelivered(undelivered, ReconcileFrom(snapshot, cache, pending))
  {
    var write := Decide(cache[pending[0].HandoffId], pending[0]);
    var tail := ReconcileFrom(snapshot, cache, pending[1..]);
    assert ReconcileFrom(snapshot, cache, pending) == Prepend([write], tail);
    StopAfterPrepend(undelivered, write, tail);
  }

  /** One step of both folds for a field whose job is listed now. */
  lemma StopListedStep(snapshot: Snapshot, undelivered: set<Action>, cache: Cache, pending: seq<JobCustomField>)
    requires |pending| >= 1 && pending[0].HandoffId !in cache && pending[0].HandoffId in snapshot
    requires var job := pending[0].HandoffId;
      var cache' := cache[job := IndexByName(snapshot[job])];
      RunFrom(snapshot, undelivered, cache', pending[1..])
        == StopAtUndelivered(undelivered, ReconcileFrom(snapshot, cache', pending[1..]))
    ensures RunFrom(snapshot, undelivered, cache, pending)
      == StopAtUndelivered(undelivered, ReconcileFrom(snapshot, cache, pending))
  {
    var job := pending[0].HandoffId;
    var index := IndexByName(snapshot[job]);
    var write := Decide(index, pending[0]);
    var tail := ReconcileFrom(snapshot, cache[job := index], pending[1..]);
    assert ReconcileFrom(snapshot, cache, pending) == Prepend([List(job), write], tail);
    StopAfterListing(undelivered, job, write, tail);
  }

  /** Stopping a pass that starts with a listing and then one write. */
  lemma StopAfterListing(undelivered: set<Action>, job: int, write: Action, tail: PassOutcome)
    requires !write.List?
    ensures StopAtUndelivered(undelivered, Prepend([List(job), write], tail))
      == if write in undelivered then WriteFailed([List(job), write], write)
         else Prepend([List(job), write], StopAtUndelivered(undelivered, tail))
  {
    var second := Prepend([write], tail);
    PrependTwice([List(job)], [write], tail);
    assert [List(job)] + [write] == [List(job), write];
    StopAfterPrepend(undelivered, List(job), second);
    StopAfterPrepend(undelivered, write, tail);
    if write in undelivered {
      assert StopAtUndelivered(undelivered, second) == WriteFailed([write], write);
    } else {
      PrependTwice([List(job)], [write], StopAtUndelivered(undelivered, tail));
    }
  }

  // ---------------------------------------------------------------------------
  // The HTTP form of each request (main.go:329, 431, 473)
  // ---------------------------------------------------------------------------

  /**
   * The HTTP verb and URL of each request of a pass: a listing filters by
   * its job id, a patch addresses its field id, a create posts to the
   * collection.
   */
  function RequestFor(env: Env, action: Action): (request: (string, string))
    ensures action.List? ==>
      request.0 == "GET" && Between(request.1, JobCustomFieldsURL(env) + ListFilter, "") == Some(action.jobId)
    ensures action.Update? ==>
      request.0 == "PATCH" && Between(request.1, JobCustomFieldsURL(env) + "(", ")") == Some(action.fieldId)
    ensures action.Create? ==> request == ("POST", JobCustomFieldsURL(env))
  {
    match action
    case List(jobId) =>
      ListURLRoundTrip(env, jobId);
      ("GET", ListJobCustomFieldsForJobURL(env, jobId))
    case Update(fieldId, _) =>
      UpdateURLRoundTrip(env, fieldId);
      ("PATCH", UpdateJobCustomFieldURL(env, fieldId))
    case Create(_) => ("POST", JobCustomFieldsURL(env))
  }
}
