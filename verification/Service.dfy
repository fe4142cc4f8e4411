/**
 The observation service's own fields (internal/observe/service.go:72-86): what
 each section under the mutex does to them, and a refresh that meets no other
 caller. SingleFlight takes the same sections apart into interleaved statements.
 */
module Service {
  import opened Storage
  import opened Catalog
  import opened Transactions
  import opened Observations
  import opened Scanning
  import opened Verdicts
  import opened CatalogStore
  import Commands
  import SingleFlight

  type Channel = SingleFlight.Channel
  type Outcome = SingleFlight.Outcome

  /** While one call holds the mutex no other call touches the shared fields, so a section is atomic. */
  lemma SectionsAreAtomic(s: SingleFlight.State, e: SingleFlight.Event)
    requires SingleFlight.Reachable(s) && SingleFlight.Enabled(s, e) && SingleFlight.IsCallStep(e)
    requires s.holder.Some? && e.c != s.holder.value
    ensures var u := SingleFlight.After(s, e);
      && u.holder == s.holder && u.running == s.running && u.lastOutcome == s.lastOutcome
      && u.channels == s.channels && u.closed == s.closed && u.log == s.log
  {
    hide SingleFlight.ScanInv, SingleFlight.LogInv, SingleFlight.DatabaseInv, SingleFlight.CountInv,
         SingleFlight.Reachable;
    hide RecordOk, FreshObservationIds, WithRecord;
    SingleFlight.ReachableInv(s);
    assert !SingleFlight.Holds(s.calls[e.c].pc);
  }

  /** Storage answers for every accepted object, and the generated identities are free. */
  ghost predicate CanObserve(ot: ObservationTables, listing: seq<ObjectListing>, ms: seq<PublicationManifest>,
                             answers: Answers, ids: ObservationIds) {
    && AllAnswered(View(ObservedOf(listing), answers, false), ms)
    && FreshObservationIds(ot, ids, |ms|)
  }

  /** The outcome is of the class of the error that the first failing request of the scan ends in. */
  ghost predicate FailsOfClass(v: View, ms: seq<PublicationManifest>, outcome: Outcome) {
    exists error :: FirstFailure(v, ms, error) && SingleFlight.ClassIs(outcome, Some(error))
  }

  class Service {
    var running: Option<Channel>
    var lastOutcome: Outcome
    var channels: nat
    var closed: set<Channel>

    /** Channels made and not closed are exactly the running one. */
    ghost predicate Valid()
      reads this
    {
      && (forall ch: Channel :: (ch < channels && ch !in closed) <==> running == Some(ch))
      && (forall ch | ch in closed :: ch < channels)
    }

    constructor ()
      ensures Valid() && running == None && lastOutcome == SingleFlight.Never
    {
      running, lastOutcome, channels, closed := None, SingleFlight.Never, 0, {};
    }

    /** The first section of Refresh: join the running scan or claim a new one. */
    method Enter() returns (role: SingleFlight.Role)
      requires Valid()
      modifies this
      ensures Valid() && lastOutcome == old(lastOutcome) && closed == old(closed)
      ensures old(running).Some? ==>
          role == SingleFlight.Joined(old(running).value) && running == old(running) && channels == old(channels)
      ensures old(running).None? ==>
          role == SingleFlight.Led(old(channels)) && running == Some(old(channels)) && channels == old(channels) + 1
      ensures role.channel !in closed
    {
      if running.Some? {
        return SingleFlight.Joined(running.value);
      }
      var done := channels;
      channels := channels + 1;
      running := Some(done);
      return SingleFlight.Led(done);
    }

    /** The leader's last section; done is still open, so closing it does not panic. */
    method Publish(done: Channel, outcome: Outcome)
      requires Valid() && running == Some(done)
      modifies this
      ensures Valid() && running == None && lastOutcome == outcome && channels == old(channels)
      ensures closed == old(closed) + {done} && done !in old(closed)
    {
      lastOutcome := outcome;
      running := None;
      closed := closed + {done};
    }

    method State() returns (isRunning: bool, last: Outcome)
      ensures isRunning == running.Some? && last == lastOutcome
    {
      return running != None, lastOutcome;
    }

    /** Refresh when no scan is running: it scans once, publishes, and leaves nothing running. */
    method Refresh(store: Store, rows: seq<JoinRow>, list: Response<seq<ObjectListing>>, answers: Answers, now: Time,
                   ids: ObservationIds, faults: Faults) returns (outcome: Outcome)
      requires Valid() && running == None && store.Valid() && IsJoin(store.tables, rows)
      modifies this, store`observations
      ensures Valid() && store.Valid() && running == None && lastOutcome == outcome
      ensures channels == old(channels) + 1 && closed == old(closed) + {old(channels)}
      ensures outcome != SingleFlight.Never
      // A failed LIST: the outcome is of the class of its error.
      ensures list.Err? ==>
          store.observations == old(store.observations) && SingleFlight.ClassIs(outcome, Some(list.error))
      // A scan with an unanswered request: of the class of its first failing request. A completed one that is
      // not recorded: failed.
      ensures list.Ok? ==> exists ms ::
        && AcceptedManifestsOf(store.tables, ms)
        && if AllAnswered(View(ObservedOf(list.value), answers, false), ms)
           then outcome == SingleFlight.Succeeded || outcome == SingleFlight.Failed
           else FailsOfClass(View(ObservedOf(list.value), answers, false), ms, outcome)
      ensures outcome == SingleFlight.Succeeded ==>
        list.Ok? && exists ms ::
          && AcceptedManifestsOf(store.tables, ms)
          && Commands.ObservationAdded(list.value, ms, View(ObservedOf(list.value), answers, false), now,
                                       old(store.observations), ids.observation, store.observations)
      ensures outcome != SingleFlight.Succeeded && NoLateCrash(faults) ==> store.observations == old(store.observations)
      ensures (&& list.Ok? && now != ZERO_TIME && (forall e | e in list.value :: e.size >= 0) && NoFaults(faults)
               && forall ms | AcceptedManifestsOf(store.tables, ms) ::
                 CanObserve(old(store.observations), list.value, ms, answers, ids)) ==>
              outcome == SingleFlight.Succeeded
    {
      hide IsJoin, ObservationsOk, SchemaOk, AcceptedManifestsOf, FirstFailure, ScanIs, ObservedOf, AllAnswered,
           NoFaults,
           FreshObservationIds, Stored;
      var role := Enter();
      var r, ms := Commands.Run(store, rows, list, answers, false, now, ids, faults);
      outcome := SingleFlight.OutcomeOf(r);
      Publish(role.channel, outcome);
    }
  }
}
