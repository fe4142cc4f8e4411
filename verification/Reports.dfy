/** What the latest observation says of each accepted publication, from storage to the reader of the catalog. */
module Reports {
  import opened Text
  import opened Storage
  import opened Catalog
  import opened Observations
  import opened Scanning
  import opened Verdicts

  /** What is reported of a publication is the verdict storage demands. */
  ghost predicate ReportIs(v: View, m: PublicationManifest, report: PublicationObservation) {
    VerdictIs(v, m, PublicationVerdict(m.publicationId, m.path, report.state, report.observedSize, report.detail))
  }

  lemma VerdictReported(before: ObservationTables, after: ObservationTables, id: Id, listing: seq<ObjectListing>,
                        ms: seq<PublicationManifest>, v: View, now: Time, r: ScanResult, result: ObservationResult,
                        i: nat)
    requires ScanIs(listing, ms, v, now, r) && Stored(before, after, id, ms, r) && i < |ms|
    requires forall k | k in after.states && after.states[k].observationId == id ::
      && after.states[k].publicationId in result.publications
      && result.publications[after.states[k].publicationId] == after.states[k].observation
    ensures ms[i].publicationId in result.publications && ReportIs(v, ms[i], result.publications[ms[i].publicationId])
  {
    hide VerdictIs, ResultFor;
    ScanVerdicts(listing, ms, v, now, r);
    var added := after.states - before.states.Keys;
    assert VerdictHeld(added, id, ms[i], r.publications[i]);
    var k :| k in added && HoldsVerdict(added[k], id, ms[i], r.publications[i]);
    assert k in after.states && after.states[k] == added[k];
    VerdictNamed(v, ms[i], r.publications[i]);
  }

  lemma VerdictNamed(v: View, m: PublicationManifest, p: PublicationVerdict)
    requires VerdictIs(v, m, p)
    ensures p == PublicationVerdict(m.publicationId, m.path, p.state, p.observedSize, p.detail)
  {}

  /**
   Reading back after a stored scan: the lock, the usage and the unclaimed keys are the
   scan's, and exactly the accepted publications are reported, each as missing, drifted
   or in sync as its manifest and storage demand.
   */
  lemma LatestReportsStorage(t: Tables, before: ObservationTables, after: ObservationTables, id: Id,
                             listing: seq<ObjectListing>, ms: seq<PublicationManifest>, v: View, now: Time,
                             r: ScanResult,
                             result: ObservationResult)
    requires ObservationsOk(t, before) && (forall row | row in before.observations :: row.id != id)
    requires forall row | row in before.observations :: row.observedAt <= now - now % 1_000_000_000
    requires ScanIs(listing, ms, v, now, r) && Stored(before, after, id, ms, r)
    requires ReadsBack(after, after.observations[LatestIndex(after.observations)], result)
    ensures result.id == id && result.observedAt == now - now % 1_000_000_000
    ensures result.lock == r.lock && result.usage == r.usage && result.unclaimedKeys == r.unclaimedKeys
    ensures forall i | 0 <= i < |ms| ::
      ms[i].publicationId in result.publications && ReportIs(v, ms[i], result.publications[ms[i].publicationId])
    ensures forall p | p in result.publications :: exists m :: m in ms && m.publicationId == p
  {
    hide ReportIs, LatestIndex, ResultFor, HoldsVerdicts, AnyFinding;
    var row :| HoldsScan(row, id, r) && after.observations == before.observations + [row];
    assert after.observations[|before.observations|] == row;
    forall k | 0 <= k < |after.observations| ensures after.observations[k].observedAt <= row.observedAt {
      assert k < |before.observations| ==> after.observations[k] in before.observations;
    }
    LatestIsLast(after.observations);
    forall i | 0 <= i < |ms|
      ensures ms[i].publicationId in result.publications && ReportIs(v, ms[i], result.publications[ms[i].publicationId])
    {
      VerdictReported(before, after, id, listing, ms, v, now, r, result, i);
    }
    forall p | p in result.publications ensures exists m :: m in ms && m.publicationId == p {
      var k :| k in after.states && after.states[k].observationId == id && after.states[k].publicationId == p;
      OnlyAdded(t, before, after, id, ms, r, k);
    }
  }

  /** The states of the new observation are the added ones. */
  lemma OnlyAdded(t: Tables, before: ObservationTables, after: ObservationTables, id: Id, ms: seq<PublicationManifest>,
                  r: ScanResult, k: Id)
    requires ObservationsOk(t, before) && (forall row | row in before.observations :: row.id != id)
    requires Stored(before, after, id, ms, r) && k in after.states && after.states[k].observationId == id
    ensures exists m :: m in ms && m.publicationId == after.states[k].publicationId
  {
    OldStatesNotNew(t, before, id);
    var added := after.states - before.states.Keys;
    assert k !in before.states;
    assert k in added && added[k] == after.states[k];
    var i :| 0 <= i < |ms| && HoldsVerdict(added[k], id, ms[i], r.publications[i]);
    assert ms[i] in ms;
  }

  lemma OldStatesNotNew(t: Tables, before: ObservationTables, id: Id)
    requires ObservationsOk(t, before) && forall row | row in before.observations :: row.id != id
    ensures forall k | k in before.states :: before.states[k].observationId != id
  {}
}
