/**
 * An abstract model of the vendor's custom-field store, used to state what a
 * reconciliation pass achieves: after the requests of one pass are applied,
 * a second pass with the same desired fields creates nothing.
 *
 * The store's behaviour is an assumption about the API, not code of the
 * step: a create appends the field under its job with a fresh id, a patch
 * sets the value of the field with that id, a listing changes nothing.
 */
module Server {
  import opened CustomFields
  import opened Reconciler
  import opened ReconcilerProperties

  /** The stored fields per job and the id the store assigns next. */
  datatype State = State(fields: Snapshot, nextId: int)

  function Names(listing: seq<JobCustomField>): set<string>
  {
    set i | 0 <= i < |listing| :: listing[i].Name
  }

  /** The listing with the value of every field carrying `id` replaced. */
  function SetValueById(listing: seq<JobCustomField>, id: int, value: string): (patched: seq<JobCustomField>)
    ensures |patched| == |listing|
    ensures forall i :: 0 <= i < |listing| ==> patched[i] == (if listing[i].CustomFieldId == id then listing[i].(Value := value) else listing[i])
  {
    seq(|listing|, i requires 0 <= i < |listing| =>
      if listing[i].CustomFieldId == id then listing[i].(Value := value) else listing[i])
  }

  /** The store after serving one request. */
  function Apply(state: State, action: Action): State
  {
    match action
    case List(_) => state
    case Update(id, payload) =>
      State(map job | job in state.fields :: SetValueById(state.fields[job], id, payload.Value), state.nextId)
    case Create(field) =>
      var job := field.HandoffId;
      var listing := if job in state.fields then state.fields[job] else [];
      State(state.fields[job := listing + [field.(CustomFieldId := state.nextId)]], state.nextId + 1)
  }

  /** The store after serving a trace of requests in order. */
  function ApplyAll(state: State, trace: seq<Action>): State
    decreases |trace|
  {
    if |trace| == 0 then state else ApplyAll(Apply(state, trace[0]), trace[1..])
  }

  /** Jobs and names only grow: `later` keeps every job and every field name of `earlier`. */
  predicate KeepsNames(earlier: State, later: State)
  {
    forall job :: job in earlier.fields ==> job in later.fields && Names(earlier.fields[job]) <= Names(later.fields[job])
  }

  lemma HasNameIsNames(listing: seq<JobCustomField>, name: string)
    ensures HasName(listing, name) <==> name in Names(listing)
  {
  }

  lemma ApplyKeepsNames(state: State, action: Action)
    ensures KeepsNames(state, Apply(state, action))
  {
    var after := Apply(state, action);
    forall job | job in state.fields
      ensures job in after.fields && Names(state.fields[job]) <= Names(after.fields[job])
    {
      var before := state.fields[job];
      match action
      case List(_) =>
      case Update(id, payload) =>
        var patched := SetValueById(before, id, payload.Value);
        assert after.fields[job] == patched;
        forall name | name in Names(before) ensures name in Names(patched) {
          var i :| 0 <= i < |before| && before[i].Name == name;
          assert patched[i].Name == name;
        }
      case Create(field) =>
        if job == field.HandoffId {
          var grown := before + [field.(CustomFieldId := state.nextId)];
          assert after.fields[job] == grown;
          forall name | name in Names(before) ensures name in Names(grown) {
            var i :| 0 <= i < |before| && before[i].Name == name;
            assert grown[i].Name == name;
          }
        }
    }
  }

  lemma {:induction false} ApplyAllKeepsNames(state: State, trace: seq<Action>)
    ensures KeepsNames(state, ApplyAll(state, trace))
    decreases |trace|
  {
    if |trace| > 0 {
      ApplyKeepsNames(state, trace[0]);
      ApplyAllKeepsNames(Apply(state, trace[0]), trace[1..]);
    }
  }

  /** Every field a trace creates is stored, under its job, once the trace is served. */
  lemma {:induction false} CreatedFieldsAreStored(state: State, trace: seq<Action>)
    ensures forall a :: a in trace && a.Create? ==>
      && a.field.HandoffId in ApplyAll(state, trace).fields
      && a.field.Name in Names(ApplyAll(state, trace).fields[a.field.HandoffId])
    decreases |trace|
  {
    if |trace| > 0 {
      var next := Apply(state, trace[0]);
      CreatedFieldsAreStored(next, trace[1..]);
      ApplyAllKeepsNames(next, trace[1..]);
      if trace[0].Create? {
        var field := trace[0].field;
        var stored := next.fields[field.HandoffId];
        assert stored[|stored| - 1].Name == field.Name;
      }
      forall a | a in trace && a.Create?
        ensures a == trace[0] || a in trace[1..]
      {
        var i :| 0 <= i < |trace| && trace[i] == a;
        if i > 0 { assert trace[1..][i - 1] == a; }
      }
    }
  }

  /**
   * After one completed pass has been served, every desired field's name is
   * stored under its job.
   */
  lemma PassStoresEveryName(state: State, desired: seq<JobCustomField>)
    requires Reconcile(state.fields, desired).Completed?
    ensures var after := ApplyAll(state, Reconcile(state.fields, desired).trace);
      forall k :: 0 <= k < |desired| ==>
        && desired[k].HandoffId in after.fields
        && HasName(after.fields[desired[k].HandoffId], desired[k].Name)
  {
    var trace := Reconcile(state.fields, desired).trace;
    var after := ApplyAll(state, trace);
    DecisionsOfPass(state.fields, desired);
    ApplyAllKeepsNames(state, trace);
    CreatedFieldsAreStored(state, trace);
    var decisions := Decisions(trace);
    forall k | 0 <= k < |desired|
      ensures desired[k].HandoffId in after.fields && HasName(after.fields[desired[k].HandoffId], desired[k].Name)
    {
      var field := desired[k];
      var job := field.HandoffId;
      var listing := state.fields[job];
      assert decisions[k] in decisions;
      if field.Name in IndexByName(listing) {
        HasNameIsNames(listing, field.Name);
      } else {
        assert decisions[k] == Create(field);
      }
      HasNameIsNames(after.fields[job], field.Name);
    }
  }

  /**
   * Idempotence: serving one completed pass and reconciling the same desired
   * fields again completes with updates only, never a second create.
   */
  lemma SecondPassOnlyUpdates(state: State, desired: seq<JobCustomField>)
    requires Reconcile(state.fields, desired).Completed?
    ensures var after := ApplyAll(state, Reconcile(state.fields, desired).trace);
      && Reconcile(after.fields, desired).Completed?
      && forall a :: a in Reconcile(after.fields, desired).trace ==> !a.Create?
  {
    var after := ApplyAll(state, Reconcile(state.fields, desired).trace);
    PassStoresEveryName(state, desired);
    ReconcileCompletesIffListable(after.fields, desired);
    DecisionsOfPass(after.fields, desired);
  }

  // ---------------------------------------------------------------------------
  // Values: the last desired value of each name is what a pass leaves stored
  // ---------------------------------------------------------------------------

  /** Every stored field has an id of its own, below the id the store assigns next. */
  predicate WellIdentified(state: State)
  {
    && (forall job, i :: job in state.fields && 0 <= i < |state.fields[job]| ==>
          state.fields[job][i].CustomFieldId < state.nextId)
    && (forall job, i, job', i' ::
          && job in state.fields && 0 <= i < |state.fields[job]|
          && job' in state.fields && 0 <= i' < |state.fields[job']|
          && state.fields[job][i].CustomFieldId == state.fields[job'][i'].CustomFieldId
          ==> job == job' && i == i')
  }

  /**
   * `later` keeps every job and every field of `earlier` in place, with at
   * most its value changed, and assigns no lower ids.
   */
  predicate Extends(earlier: State, later: State)
  {
    && earlier.nextId <= later.nextId
    && forall job :: job in earlier.fields ==>
         && job in later.fields
         && |earlier.fields[job]| <= |later.fields[job]|
         && forall i :: 0 <= i < |earlier.fields[job]| ==>
              later.fields[job][i] == earlier.fields[job][i].(Value := later.fields[job][i].Value)
  }

  /** Some field stored under `job` is called `name` and holds `value`. */
  predicate Stores(state: State, job: int, name: string, value: string)
  {
    && job in state.fields
    && exists i :: 0 <= i < |state.fields[job]| && state.fields[job][i].Name == name && state.fields[job][i].Value == value
  }

  /** No later desired field has the same job and name as field `k`. */
  predicate LastOfItsName(desired: seq<JobCustomField>, k: int)
    requires 0 <= k < |desired|
  {
    forall m :: k < m < |desired| ==>
      desired[m].HandoffId != desired[k].HandoffId || desired[m].Name != desired[k].Name
  }

  lemma ApplyExtends(state: State, action: Action)
    ensures Extends(state, Apply(state, action))
  {
  }

  lemma ExtendsTransitive(a: State, b: State, c: State)
    requires Extends(a, b) && Extends(b, c)
    ensures Extends(a, c)
  {
    forall job | job in a.fields
      ensures forall i :: 0 <= i < |a.fields[job]| ==>
        c.fields[job][i] == a.fields[job][i].(Value := c.fields[job][i].Value)
    {
      forall i | 0 <= i < |a.fields[job]|
        ensures c.fields[job][i] == a.fields[job][i].(Value := c.fields[job][i].Value)
      {
        assert b.fields[job][i] == a.fields[job][i].(Value := b.fields[job][i].Value);
        assert c.fields[job][i] == b.fields[job][i].(Value := c.fields[job][i].Value);
      }
    }
  }

  lemma {:induction false} ApplyAllExtends(state: State, trace: seq<Action>)
    ensures Extends(state, ApplyAll(state, trace))
    decreases |trace|
  {
    if |trace| > 0 {
      var next := Apply(state, trace[0]);
      ApplyExtends(state, trace[0]);
      ApplyAllExtends(next, trace[1..]);
      ExtendsTransitive(state, next, ApplyAll(next, trace[1..]));
    }
  }

  lemma {:induction false} ApplyAllAppend(state: State, first: seq<Action>, second: seq<Action>)
    ensures ApplyAll(state, first + second) == ApplyAll(ApplyAll(state, first), second)
    decreases |first|
  {
    if |first| > 0 {
      assert (first + second)[0] == first[0];
      assert (first + second)[1..] == first[1..] + second;
      ApplyAllAppend(Apply(state, first[0]), first[1..], second);
    } else {
      assert first + second == second;
    }
  }

  /** Listings change nothing, so serving a trace is serving its updates and creates. */
  lemma {:induction false} ApplyAllSkipsListings(state: State, trace: seq<Action>)
    ensures ApplyAll(state, trace) == ApplyAll(state, Decisions(trace))
    decreases |trace|
  {
    if |trace| > 0 {
      ApplyAllSkipsListings(Apply(state, trace[0]), trace[1..]);
      if !trace[0].List? {
        var rest := Decisions(trace[1..]);
        assert ([trace[0]] + rest)[0] == trace[0];
        assert ([trace[0]] + rest)[1..] == rest;
      }
    }
  }

  /** A stored field no later update addresses keeps its place and contents. */
  lemma {:induction false} UntargetedFieldPersists(state: State, actions: seq<Action>, job: int, pos: nat)
    requires job in state.fields && pos < |state.fields[job]|
    requires forall i :: 0 <= i < |actions| && actions[i].Update? ==> actions[i].fieldId != state.fields[job][pos].CustomFieldId
    ensures job in ApplyAll(state, actions).fields
    ensures pos < |ApplyAll(state, actions).fields[job]|
    ensures ApplyAll(state, actions).fields[job][pos] == state.fields[job][pos]
    decreases |actions|
  {
    if |actions| > 0 {
      var next := Apply(state, actions[0]);
      ApplyExtends(state, actions[0]);
      assert next.fields[job][pos] == state.fields[job][pos];
      assert forall i :: 0 <= i < |actions[1..]| ==> actions[1..][i] == actions[i + 1];
      UntargetedFieldPersists(next, actions[1..], job, pos);
    }
  }

  /**
   * After one completed pass has been served, the value of the last desired
   * field of each job and name is stored under that job and name, provided
   * the store's ids are its own.
   */
  lemma PassStoresLastValues(state: State, desired: seq<JobCustomField>)
    requires WellIdentified(state)
    requires Reconcile(state.fields, desired).Completed?
    ensures var after := ApplyAll(state, Reconcile(state.fields, desired).trace);
      forall k :: 0 <= k < |desired| && LastOfItsName(desired, k) ==>
        Stores(after, desired[k].HandoffId, desired[k].Name, desired[k].Value)
  {
    var trace := Reconcile(state.fields, desired).trace;
    DecisionsOfPass(state.fields, desired);
    ApplyAllSkipsListings(state, trace);
    forall k | 0 <= k < |desired| && LastOfItsName(desired, k)
      ensures Stores(ApplyAll(state, Decisions(trace)), desired[k].HandoffId, desired[k].Name, desired[k].Value)
    {
      StoresLastValue(state, desired, Decisions(trace), k);
    }
  }

  /** The facts about a pass's decisions the value lemmas use. */
  predicate DecidedAgainst(state: State, desired: seq<JobCustomField>, decisions: seq<Action>)
  {
    && |decisions| == |desired|
    && forall m :: 0 <= m < |desired| ==>
         && desired[m].HandoffId in state.fields
         && decisions[m] == Decide(IndexByName(state.fields[desired[m].HandoffId]), desired[m])
  }

  /**
   * An id no update for another job and name can address: a fresh one, or
   * the id of the last listed field with the field's own name.
   */
  predicate OwnId(state: State, field: JobCustomField, id: int)
    requires field.HandoffId in state.fields
  {
    || id >= state.nextId
    || exists p :: 0 <= p < |state.fields[field.HandoffId]| && IsLastNamed(state.fields[field.HandoffId], p, field.Name) && id == state.fields[field.HandoffId][p].CustomFieldId
  }

  lemma StoresLastValue(state: State, desired: seq<JobCustomField>, decisions: seq<Action>, k: nat)
    requires WellIdentified(state) && DecidedAgainst(state, desired, decisions)
    requires k < |desired| && LastOfItsName(desired, k)
    ensures Stores(ApplyAll(state, decisions), desired[k].HandoffId, desired[k].Name, desired[k].Value)
  {
    var rest := decisions[k + 1..];
    ServeAround(state, decisions, k);
    var mid := ApplyAll(state, decisions[..k]);
    ApplyAllExtends(state, decisions[..k]);
    var now := Apply(mid, decisions[k]);
    var job := desired[k].HandoffId;
    var pos := StoredAt(state, desired, decisions, k, mid);
    DecisionsAddressListed(state, desired, decisions);
    LaterUpdatesMiss(state, desired, decisions, k, rest, now.fields[job][pos].CustomFieldId);
    UntargetedFieldPersists(now, rest, job, pos);
  }

  /** Serving the decisions is serving those before `k`, then decision `k`, then the rest. */
  lemma ServeAround(state: State, decisions: seq<Action>, k: nat)
    requires k < |decisions|
    ensures ApplyAll(state, decisions)
      == ApplyAll(Apply(ApplyAll(state, decisions[..k]), decisions[k]), decisions[k + 1..])
  {
    var before := decisions[..k];
    var rest := decisions[k + 1..];
    assert decisions == before + [decisions[k]] + rest;
    ApplyAllAppend(state, before + [decisions[k]], rest);
    ApplyAllAppend(state, before, [decisions[k]]);
    assert ApplyAll(ApplyAll(state, before), [decisions[k]]) == Apply(ApplyAll(state, before), decisions[k]);
  }

  /**
   * Where decision `k` leaves the desired value: the last listed field of
   * that name when it is an update, the appended field when it is a create.
   */
  lemma StoredAt(state: State, desired: seq<JobCustomField>, decisions: seq<Action>, k: nat, mid: State) returns (pos: nat)
    requires DecidedAgainst(state, desired, decisions)
    requires k < |desired| && Extends(state, mid)
    ensures var now := Apply(mid, decisions[k]);
      && desired[k].HandoffId in now.fields
      && pos < |now.fields[desired[k].HandoffId]|
      && now.fields[desired[k].HandoffId][pos].Name == desired[k].Name
      && now.fields[desired[k].HandoffId][pos].Value == desired[k].Value
      && OwnId(state, desired[k], now.fields[desired[k].HandoffId][pos].CustomFieldId)
  {
    var field := desired[k];
    var job := field.HandoffId;
    var listing := state.fields[job];
    var now := Apply(mid, decisions[k]);
    if field.Name in IndexByName(listing) {
      var p :| IsLastNamed(listing, p, field.Name) && IndexByName(listing)[field.Name] == listing[p];
      assert mid.fields[job][p] == listing[p].(Value := mid.fields[job][p].Value);
      assert now.fields[job][p] == listing[p].(Value := field.Value);
      pos := p;
    } else {
      pos := |mid.fields[job]|;
      assert now.fields[job][pos] == field.(CustomFieldId := mid.nextId);
    }
  }

  /** Each update of the decisions addresses the last listed field of its desired field's name. */
  predicate AddressesListed(state: State, desired: seq<JobCustomField>, decisions: seq<Action>)
  {
    && |decisions| == |desired|
    && forall n :: 0 <= n < |decisions| && decisions[n].Update? ==>
         && desired[n].HandoffId in state.fields
         && exists i :: (0 <= i < |state.fields[desired[n].HandoffId]|
              && IsLastNamed(state.fields[desired[n].HandoffId], i, desired[n].Name)
              && decisions[n].fieldId == state.fields[desired[n].HandoffId][i].CustomFieldId)
  }

  lemma DecisionsAddressListed(state: State, desired: seq<JobCustomField>, decisions: seq<Action>)
    requires DecidedAgainst(state, desired, decisions)
    ensures AddressesListed(state, desired, decisions)
  {
    forall n | 0 <= n < |decisions| && decisions[n].Update?
      ensures exists i :: (0 <= i < |state.fields[desired[n].HandoffId]|
        && IsLastNamed(state.fields[desired[n].HandoffId], i, desired[n].Name)
        && decisions[n].fieldId == state.fields[desired[n].HandoffId][i].CustomFieldId)
    {
      var other := state.fields[desired[n].HandoffId];
      var i :| IsLastNamed(other, i, desired[n].Name) && IndexByName(other)[desired[n].Name] == other[i];
    }
  }

  /** No update after decision `k` addresses an id of field `k`'s own. */
  lemma LaterUpdatesMiss(state: State, desired: seq<JobCustomField>, decisions: seq<Action>, k: nat, rest: seq<Action>, id: int)
    requires WellIdentified(state) && AddressesListed(state, desired, decisions)
    requires k < |desired| && desired[k].HandoffId in state.fields && LastOfItsName(desired, k)
    requires rest == decisions[k + 1..]
    requires OwnId(state, desired[k], id)
    ensures forall i :: 0 <= i < |rest| && rest[i].Update? ==> rest[i].fieldId != id
  {
    forall i | 0 <= i < |rest| && rest[i].Update?
      ensures rest[i].fieldId != id
    {
      assert rest[i] == decisions[k + 1 + i];
      LaterUpdateMisses(state, desired, decisions, k, k + 1 + i, id);
    }
  }

  lemma LaterUpdateMisses(state: State, desired: seq<JobCustomField>, decisions: seq<Action>, k: nat, n: nat, id: int)
    requires WellIdentified(state) && AddressesListed(state, desired, decisions)
    requires k < n < |desired| && desired[k].HandoffId in state.fields && LastOfItsName(desired, k)
    requires OwnId(state, desired[k], id)
    requires decisions[n].Update?
    ensures decisions[n].fieldId != id
  {
  }
}
