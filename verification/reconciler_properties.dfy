/**
 * What `updateJobCustomFields` (main.go:383-422) promises, proved of the fold
 * in module Reconciler: when a pass fails, how many listings it sends, which
 * request each desired field gets, and where the listings sit in the trace.
 */
module ReconcilerProperties {
  import opened CustomFields
  import opened Reconciler

  // ---------------------------------------------------------------------------
  // Small facts about the reference notions
  // ---------------------------------------------------------------------------

  lemma JobsOfCons(fields: seq<JobCustomField>)
    requires |fields| >= 1
    ensures JobsOf(fields) == {fields[0].HandoffId} + JobsOf(fields[1..])
  {
    var rest := fields[1..];
    forall job | job in JobsOf(fields)
      ensures job in {fields[0].HandoffId} + JobsOf(rest)
    {
      var k :| 0 <= k < |fields| && fields[k].HandoffId == job;
      if k > 0 {
        assert rest[k - 1].HandoffId == job;
      }
    }
    forall job | job in JobsOf(rest)
      ensures job in JobsOf(fields)
    {
      var k :| 0 <= k < |rest| && rest[k].HandoffId == job;
      assert fields[k + 1].HandoffId == job;
    }
  }

  lemma JobsOfSnoc(fields: seq<JobCustomField>, i: nat)
    requires i < |fields|
    ensures JobsOf(fields[..i + 1]) == JobsOf(fields[..i]) + {fields[i].HandoffId}
  {
    var before := fields[..i];
    var after := fields[..i + 1];
    forall job | job in JobsOf(after)
      ensures job in JobsOf(before) + {fields[i].HandoffId}
    {
      var k :| 0 <= k < |after| && after[k].HandoffId == job;
      if k < i {
        assert before[k].HandoffId == job;
      }
    }
    forall job | job in JobsOf(before)
      ensures job in JobsOf(after)
    {
      var k :| 0 <= k < |before| && before[k].HandoffId == job;
      assert after[k].HandoffId == job;
    }
    assert after[i].HandoffId == fields[i].HandoffId;
  }

  lemma {:induction false} DecisionsAppend(first: seq<Action>, second: seq<Action>)
    ensures Decisions(first + second) == Decisions(first) + Decisions(second)
    decreases |first|
  {
    if |first| > 0 {
      assert (first + second)[0] == first[0];
      assert (first + second)[1..] == first[1..] + second;
      DecisionsAppend(first[1..], second);
      if !first[0].List? {
        assert [first[0]] + (Decisions(first[1..]) + Decisions(second))
          == ([first[0]] + Decisions(first[1..])) + Decisions(second);
      }
    } else {
      assert first + second == second;
    }
  }

  lemma DecideIsNotList(index: NameIndex, field: JobCustomField)
    ensures !Decide(index, field).List?
    ensures Decisions([Decide(index, field)]) == [Decide(index, field)]
  {
  }

  // ---------------------------------------------------------------------------
  // Inductive statements for a pass that starts from a consistent cache
  // ---------------------------------------------------------------------------

  lemma {:induction false} OutcomeFrom(snapshot: Snapshot, cache: Cache, pending: seq<JobCustomField>)
    requires Consistent(snapshot, cache)
    ensures ReconcileFrom(snapshot, cache, pending).Completed? <==> AllListable(snapshot, pending)
    ensures !ReconcileFrom(snapshot, cache, pending).WriteFailed?
    ensures var outcome := ReconcileFrom(snapshot, cache, pending);
      outcome.ListFailed? ==>
        && outcome.jobId !in snapshot
        && |outcome.trace| >= 1
        && outcome.trace[|outcome.trace| - 1] == List(outcome.jobId)
        && exists k :: FirstUnlistable(snapshot, pending, k) && pending[k].HandoffId == outcome.jobId
    decreases |pending|
  {
    if |pending| > 0 {
      var job := pending[0].HandoffId;
      var rest := pending[1..];
      AllListableCons(snapshot, pending);
      if job !in cache && job !in snapshot {
        assert FirstUnlistable(snapshot, pending, 0);
      } else {
        var cache' := cache[job := IndexByName(snapshot[job])];
        ReconcileStep(snapshot, cache, pending);
        OutcomeFrom(snapshot, cache', rest);
        var tail := ReconcileFrom(snapshot, cache', rest);
        if tail.ListFailed? {
          var k :| FirstUnlistable(snapshot, rest, k) && rest[k].HandoffId == tail.jobId;
          FirstUnlistableShift(snapshot, pending, k);
        }
      }
    }
  }

  lemma FirstUnlistableShift(snapshot: Snapshot, fields: seq<JobCustomField>, k: nat)
    requires |fields| >= 1 && fields[0].HandoffId in snapshot
    requires FirstUnlistable(snapshot, fields[1..], k)
    ensures FirstUnlistable(snapshot, fields, k + 1) && fields[k + 1] == fields[1..][k]
  {
    forall i | 0 < i < k + 1 ensures fields[i].HandoffId in snapshot {
      assert fields[i] == fields[1..][i - 1];
    }
  }

  lemma {:induction false} ListCountFrom(snapshot: Snapshot, cache: Cache, pending: seq<JobCustomField>)
    requires Consistent(snapshot, cache)
    requires ReconcileFrom(snapshot, cache, pending).Completed?
    ensures forall job :: (multiset(ReconcileFrom(snapshot, cache, pending).trace)[List(job)]
                           == if job !in cache && job in JobsOf(pending) then 1 else 0)
    decreases |pending|
  {
    if |pending| == 0 {
    } else {
      var field := pending[0];
      var job := field.HandoffId;
      var rest := pending[1..];
      JobsOfCons(pending);
      if job in cache {
        ListCountFrom(snapshot, cache, rest);
        DecideIsNotList(cache[job], field);
      } else {
        var index := IndexByName(snapshot[job]);
        ListCountFrom(snapshot, cache[job := index], rest);
        DecideIsNotList(index, field);
      }
    }
  }

  lemma AllListableCons(snapshot: Snapshot, fields: seq<JobCustomField>)
    requires |fields| >= 1
    ensures AllListable(snapshot, fields) <==> fields[0].HandoffId in snapshot && AllListable(snapshot, fields[1..])
  {
    if fields[0].HandoffId in snapshot && AllListable(snapshot, fields[1..]) {
      forall k | 0 < k < |fields| ensures fields[k].HandoffId in snapshot {
        assert fields[k] == fields[1..][k - 1];
      }
    }
  }

  /** The request each field is prescribed against its job's listing, in order. */
  function Prescriptions(snapshot: Snapshot, fields: seq<JobCustomField>): seq<Action>
    requires AllListable(snapshot, fields)
    decreases |fields|
  {
    if |fields| == 0 then []
    else
      AllListableCons(snapshot, fields);
      [Decide(IndexByName(snapshot[fields[0].HandoffId]), fields[0])] + Prescriptions(snapshot, fields[1..])
  }

  lemma {:induction false} PrescriptionsAt(snapshot: Snapshot, fields: seq<JobCustomField>, k: nat)
    requires AllListable(snapshot, fields) && k < |fields|
    ensures |Prescriptions(snapshot, fields)| == |fields|
    ensures Prescriptions(snapshot, fields)[k] == Decide(IndexByName(snapshot[fields[k].HandoffId]), fields[k])
    decreases |fields|
  {
    AllListableCons(snapshot, fields);
    if k > 0 {
      PrescriptionsAt(snapshot, fields[1..], k - 1);
    } else if |fields| > 1 {
      PrescriptionsAt(snapshot, fields[1..], 0);
    }
  }

  lemma {:induction false} DecisionsFrom(snapshot: Snapshot, cache: Cache, pending: seq<JobCustomField>)
    requires Consistent(snapshot, cache)
    requires ReconcileFrom(snapshot, cache, pending).Completed?
    ensures AllListable(snapshot, pending)
    ensures Decisions(ReconcileFrom(snapshot, cache, pending).trace) == Prescriptions(snapshot, pending)
    decreases |pending|
  {
    if |pending| > 0 {
      var field := pending[0];
      var job := field.HandoffId;
      assert job in snapshot;
      var cache' := cache[job := IndexByName(snapshot[job])];
      ReconcileStep(snapshot, cache, pending);
      var sent := StepRequests(snapshot, cache, field);
      var tail := ReconcileFrom(snapshot, cache', pending[1..]);
      DecisionsFrom(snapshot, cache', pending[1..]);
      DecisionsAppend(sent, tail.trace);
      assert Decisions(sent) == [Decide(IndexByName(snapshot[job]), field)] by {
        if job !in cache {
          assert sent[1..] == [Decide(IndexByName(snapshot[job]), field)];
        }
      }
      AllListableCons(snapshot, pending);
    }
  }

  /** A completed pass sends, besides listings, exactly the prescribed request per field. */
  lemma DecisionsOfPass(snapshot: Snapshot, desired: seq<JobCustomField>)
    requires Reconcile(snapshot, desired).Completed?
    ensures var decisions := Decisions(Reconcile(snapshot, desired).trace);
      && |decisions| == |desired|
      && forall k :: 0 <= k < |desired| ==>
           && desired[k].HandoffId in snapshot
           && decisions[k] == Decide(IndexByName(snapshot[desired[k].HandoffId]), desired[k])
  {
    DecisionsFrom(snapshot, map[], desired);
    if |desired| > 0 {
      PrescriptionsAt(snapshot, desired, 0);
    }
    forall k | 0 <= k < |desired|
      ensures Prescriptions(snapshot, desired)[k] == Decide(IndexByName(snapshot[desired[k].HandoffId]), desired[k])
    {
      PrescriptionsAt(snapshot, desired, k);
    }
  }

  /** The requests sent for the first pending field, as the fold sends them. */
  function StepRequests(snapshot: Snapshot, cache: Cache, field: JobCustomField): seq<Action>
    requires field.HandoffId in snapshot
  {
    var decision := Decide(IndexByName(snapshot[field.HandoffId]), field);
    if field.HandoffId in cache then [decision] else [List(field.HandoffId), decision]
  }

  /** One step of the fold from a consistent cache whose next job can be listed. */
  lemma ReconcileStep(snapshot: Snapshot, cache: Cache, pending: seq<JobCustomField>)
    requires |pending| >= 1 && pending[0].HandoffId in snapshot
    requires Consistent(snapshot, cache)
    ensures var job := pending[0].HandoffId;
      var cache' := cache[job := IndexByName(snapshot[job])];
      && Consistent(snapshot, cache')
      && ReconcileFrom(snapshot, cache, pending)
         == Prepend(StepRequests(snapshot, cache, pending[0]), ReconcileFrom(snapshot, cache', pending[1..]))
  {
    var job := pending[0].HandoffId;
    if job in cache {
      assert cache[job := IndexByName(snapshot[job])] == cache;
    }
  }

  lemma {:induction false} FollowsExpectedFrom(snapshot: Snapshot, cache: Cache, desired: seq<JobCustomField>, i: nat)
    requires i <= |desired| && AllListable(snapshot, desired)
    requires Consistent(snapshot, cache)
    requires cache.Keys == JobsOf(desired[..i])
    ensures ReconcileFrom(snapshot, cache, desired[i..]) == Completed(ExpectedTrace(snapshot, desired, i))
    decreases |desired| - i
  {
    if i < |desired| {
      var job := desired[i].HandoffId;
      var cache' := cache[job := IndexByName(snapshot[job])];
      assert desired[i..][0] == desired[i];
      assert desired[i..][1..] == desired[i + 1..];
      ReconcileStep(snapshot, cache, desired[i..]);
      CacheStep(desired, i, cache, IndexByName(snapshot[job]));
      ExpectedTraceStep(snapshot, desired, i, cache);
      FollowsExpectedFrom(snapshot, cache', desired, i + 1);
    }
  }

  lemma ExpectedTraceStep(snapshot: Snapshot, desired: seq<JobCustomField>, i: nat, cache: Cache)
    requires i < |desired| && AllListable(snapshot, desired)
    requires desired[i].HandoffId in cache <==> !FirstOfJob(desired, i)
    ensures ExpectedTrace(snapshot, desired, i)
      == StepRequests(snapshot, cache, desired[i]) + ExpectedTrace(snapshot, desired, i + 1)
  {
  }

  /** Caching the next field's job keeps the cache keyed by the jobs seen so far. */
  lemma CacheStep(desired: seq<JobCustomField>, i: nat, cache: Cache, index: NameIndex)
    requires i < |desired|
    requires cache.Keys == JobsOf(desired[..i])
    ensures cache[desired[i].HandoffId := index].Keys == JobsOf(desired[..i + 1])
    ensures desired[i].HandoffId in cache <==> !FirstOfJob(desired, i)
  {
    JobsOfSnoc(desired, i);
    FirstOfJobIffUncached(desired, i, cache);
  }

  lemma FirstOfJobIffUncached(desired: seq<JobCustomField>, i: nat, cache: Cache)
    requires i < |desired|
    requires cache.Keys == JobsOf(desired[..i])
    ensures desired[i].HandoffId in cache <==> !FirstOfJob(desired, i)
  {
    var job := desired[i].HandoffId;
    if job in cache {
      assert job in JobsOf(desired[..i]);
      var k :| 0 <= k < i && desired[..i][k].HandoffId == job;
      assert desired[k].HandoffId == job;
    } else {
      forall k | 0 <= k < i ensures desired[k].HandoffId != job {
        assert desired[..i][k] == desired[k];
      }
    }
  }

  // ---------------------------------------------------------------------------
  // The properties of one pass
  // ---------------------------------------------------------------------------

  /**
   * When every update and create gets through, only a failed listing ends a
   * pass early: the pass completes exactly when every job can be listed.
   * Otherwise it stops at the first field whose job cannot be listed, with
   * that listing as its last request.
   */
  lemma ReconcileCompletesIffListable(snapshot: Snapshot, desired: seq<JobCustomField>)
    ensures Reconcile(snapshot, desired).Completed? <==> AllListable(snapshot, desired)
    ensures !Reconcile(snapshot, desired).WriteFailed?
    ensures var outcome := Reconcile(snapshot, desired);
      outcome.ListFailed? ==>
        && outcome.jobId !in snapshot
        && outcome.trace[|outcome.trace| - 1] == List(outcome.jobId)
        && exists k :: FirstUnlistable(snapshot, desired, k) && desired[k].HandoffId == outcome.jobId
  {
    OutcomeFrom(snapshot, map[], desired);
  }

  /**
   * A pass as the source runs it is the pass whose writes all get through,
   * cut short at its first undelivered update or create. It completes
   * exactly when every job can be listed and the update or create prescribed
   * for every field gets through, and it then sends just what that pass
   * sends, so the properties below hold of it.
   */
  lemma RunCompletesIffDelivered(snapshot: Snapshot, undelivered: set<Action>, desired: seq<JobCustomField>)
    ensures Run(snapshot, undelivered, desired) == StopAtUndelivered(undelivered, Reconcile(snapshot, desired))
    ensures Run(snapshot, undelivered, desired).Completed? <==>
      && AllListable(snapshot, desired)
      && forall k :: 0 <= k < |desired| ==>
           Decide(IndexByName(snapshot[desired[k].HandoffId]), desired[k]) !in undelivered
    ensures Run(snapshot, undelivered, desired).Completed? ==> Run(snapshot, undelivered, desired) == Reconcile(snapshot, desired)
  {
    RunStopsAtUndelivered(snapshot, undelivered, map[], desired);
    ReconcileCompletesIffListable(snapshot, desired);
    var pass := Reconcile(snapshot, desired);
    if AllListable(snapshot, desired) {
      DecisionsOfPass(snapshot, desired);
      var decisions := Decisions(pass.trace);
      if forall k :: 0 <= k < |desired| ==> Decide(IndexByName(snapshot[desired[k].HandoffId]), desired[k]) !in undelivered {
        forall i | 0 <= i < |pass.trace| ensures !Undelivered(undelivered, pass.trace[i]) {
          if !pass.trace[i].List? {
            assert pass.trace[i] in decisions;
          }
        }
      } else {
        var k :| 0 <= k < |desired| && Decide(IndexByName(snapshot[desired[k].HandoffId]), desired[k]) in undelivered;
        assert decisions[k] in decisions;
      }
    }
  }

  /**
   * An update or create that gets no response ends the pass at once: of two
   * fields of a job with an empty listing, when creating the first fails the
   * second is never sent.
   */
  lemma FailedCreateStopsPass(job: int, first: JobCustomField, second: JobCustomField)
    requires first.HandoffId == job && second.HandoffId == job
    ensures Run(map[job := []], {Create(first)}, [first, second])
      == WriteFailed([List(job), Create(first)], Create(first))
  {
  }

  /**
   * Each job is listed exactly once, however many fields it has and even when
   * its listing is empty; jobs no field belongs to are never listed.
   */
  lemma ListsEachJobOnce(snapshot: Snapshot, desired: seq<JobCustomField>)
    requires Reconcile(snapshot, desired).Completed?
    ensures forall job :: (multiset(Reconcile(snapshot, desired).trace)[List(job)]
                           == if job in JobsOf(desired) then 1 else 0)
  {
    ListCountFrom(snapshot, map[], desired);
  }

  /**
   * Exactly one update or create per desired field, in input order: an
   * update of the last listed field of the same name, carrying only the
   * value, when the job's listing has that name; otherwise a create of the
   * desired field unchanged.
   */
  lemma HandlesEachFieldInOrder(snapshot: Snapshot, desired: seq<JobCustomField>)
    requires Reconcile(snapshot, desired).Completed?
    ensures var decisions := Decisions(Reconcile(snapshot, desired).trace);
      && |decisions| == |desired|
      && forall k :: 0 <= k < |desired| ==>
           && desired[k].HandoffId in snapshot
           && Handles(snapshot[desired[k].HandoffId], desired[k], decisions[k])
  {
    DecisionsOfPass(snapshot, desired);
    forall k | 0 <= k < |desired|
      ensures Handles(snapshot[desired[k].HandoffId], desired[k], Decide(IndexByName(snapshot[desired[k].HandoffId]), desired[k]))
    {
      DecideHandles(snapshot[desired[k].HandoffId], desired[k]);
    }
  }

  /**
   * The whole trace: each job's listing comes right before the request for
   * its first field, and every field's request follows in input order.
   */
  lemma ListPrecedesFirstField(snapshot: Snapshot, desired: seq<JobCustomField>)
    requires AllListable(snapshot, desired)
    ensures Reconcile(snapshot, desired) == Completed(ExpectedTrace(snapshot, desired, 0))
  {
    assert desired[..0] == [];
    assert desired[0..] == desired;
    FollowsExpectedFrom(snapshot, map[], desired, 0);
  }

  /**
   * The cache only ever reflects the listing: two desired fields of one job
   * with the same name that the listing lacks are both created.
   */
  lemma CreatesAreNotCached(snapshot: Snapshot, desired: seq<JobCustomField>, a: nat, b: nat)
    requires Reconcile(snapshot, desired).Completed?
    requires a < b < |desired|
    requires desired[a].HandoffId == desired[b].HandoffId && desired[a].Name == desired[b].Name
    requires desired[a].HandoffId in snapshot && !HasName(snapshot[desired[a].HandoffId], desired[a].Name)
    ensures |Decisions(Reconcile(snapshot, desired).trace)| == |desired|
    ensures Decisions(Reconcile(snapshot, desired).trace)[a] == Create(desired[a])
    ensures Decisions(Reconcile(snapshot, desired).trace)[b] == Create(desired[b])
  {
    HandlesEachFieldInOrder(snapshot, desired);
  }
}
