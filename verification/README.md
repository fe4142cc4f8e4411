# Page Hub: a verified model of adoption, observation and refresh

Page Hub manages static Publications that live in one storage bucket. A private catalog, not the
bucket, says which objects are managed. This project models the Go core that keeps the two in step
and proves what it guarantees. Check it with `dafny verify dfyconfig.toml`.

## What is modelled

- **Declarations and plans** (`Declarations`, `DeclarationFacts`, `BaseURLs`, `Planning`, `PlanFacts`). An operator declares Publications: a
  one-segment Project prefix, a path under it, the exact object keys, an entry point, a routing mode
  and probes. Validation runs as the source's loops; a plan is built by listing the bucket, reading
  every declared object and probing every route. `DeclarationFacts` and `PlanFacts` say in plain terms
  what is accepted and what a plan records. `Text` holds the path and sorting laws this rests on.
- **Commit** (`Catalog`, `Atomicity`, `Batches`, `Transactions`, `CatalogStore`, `Commits`,
  `Commands`). The approved plan is verified, looked up by operation ID, planned again, and inserted
  row by row in one transaction against the schema's keys, checks and deferred foreign key. Any
  statement may fail and the process may crash around it. `Ownership`, `CommitRuns`, `Acceptance` and
  `RoundTrip` prove what holds of every run, when a plan is accepted, and that nothing is lost on the
  way from plan to accepted manifests. `DeclaredRows` and `Results` read the committed tables: each
  row against the declaration and storage, and the recorded result against the rows.
- **Observation** (`Storage`, `Listing`, `Observations`, `Scanning`, `Verdicts`, `Reconciliation`, `Reports`). The paginated
  listing runs against a server whose bucket changes between pages. A scan compares accepted
  manifests with LIST, HEAD and GET answers that need not agree with each other, and its result is
  recorded and read back; `Verdicts` and `Reports` state what it says by the answers alone, on every
  view. `AdoptThenObserve` joins both halves, and `SingleFile` runs the smallest
  adoptions through all of it.
- **Refresh** (`SingleFlight`, `Service`). Any number of callers interleave statement by statement
  around a mutex, one channel per scan and a shared outcome.
- **Migrations** (`Migrations`). Numbered schema steps, interrupted anywhere and resumed by any release.

Code that updates state is written as classes and methods with loops, each proved against a
specification function or predicate; the theorems are lemmas about those specifications.

## How the outside world appears

- Times are integers in nanoseconds since Go's zero time. RFC 3339 storage keeps whole seconds.
- SHA-256 over canonical JSON is the datatype constructor `DigestOf`: collision-free by assumption.
  The request hash is a pair in the same way.
- Generated identities are arbitrary values, one per place they are used; a clash breaks a key
  constraint and rolls back.
- SQLite transactions are serializable; a fault per statement decides whether it proceeds, fails, or
  the process crashes before or after it. The rows of the manifest join arrive as `IsJoin` describes.
- Storage answers (LIST, HEAD, GET), probe results and the clock are parameters, and so is what `url.Parse`
  accepts as an origin; trimming the base URL is modelled in `BaseURLs`.
- A step of `SingleFlight` is one statement of `Refresh` or one step of its scan. Each call carries a
  record of what was published when it began; that record is for the proofs only and decides nothing.

## Where the code and its intent differ

- `withinTolerance` subtracts times with saturation and negates the smallest duration to itself, so a
  modification time 2^63 nanoseconds or more before the accepted one counts as equal
  (`Scanning.WithinToleranceExact`).
- A modification time within the first second after the zero time is stored as the zero time and is
  reported as drift although nothing changed (`AdoptThenObserve.TimeKeptExact`, `SingleFile.FirstSecondDrifts`).
- A second adoption is accepted only when the bucket holds none of the objects accepted earlier, so a
  scan right after it reports every earlier Publication as missing (`Ownership.AcceptedObjectsAreGone`,
  `AdoptThenObserve.OldPublicationMissing`, `SingleFile.TwoAdoptions`).
- A refresh may return the outcome of a scan that had already finished, but was not yet published, when
  the call began (`SingleFlight.StaleExactly`, `SingleFlight.StaleJoinHappens`).
- The comment on `validateKeyCharacters` promises to reject whitespace; the code rejects control
  characters and blank values only (`Declarations.WhitespaceRejectedExactly`, `Declarations.SpaceIsAccepted`).
- Normalizing a base URL removes one trailing slash only, so a plan made for a base URL that ends in two
  slashes can never be committed: its recheck normalizes again (`Commits.RecheckOfUnchangedWorld`,
  `Commits.DoubledSlashNeverCommits`).
- The seen-objects check of `Validate` and the prechecks inside the commit transaction reject nothing
  that the boundary check and the constraints do not reject (`Declarations.SharedObjectIsInvalid`,
  `Batches.ManagedPrefixRejects`, `Batches.ManagedPathRejects`).

## Model

| member | source | states |
|---|---|---|
| CommitRuns.ReachableOwnership | internal/catalog/adopt.go:112-247 | in every catalog reachable by interleaved, failing, replaying or crashing commits, two different Publications have non-overlapping paths, share no object key and have different canonical URLs, and each current manifest is that Publication's own |
| AdoptThenObserve.AdoptedBucketIsClean | internal/observe/scan.go:94-143 | scanning unchanged coherent storage right after an accepted commit, ordinary or complete: nothing is unclaimed, and the lock is none if and only if nothing was accepted before and every accepted time survives truncation |
| SingleFlight.OneScan | internal/observe/service.go:125-157 | in every interleaving at most one scan runs, and `running` names a channel exactly while exactly one call owns it |
| SingleFlight.NoDeadlock | internal/observe/service.go:125-157 | while any Refresh has not returned, some call can take a step |
| SingleFlight.NeverPanics | internal/observe/service.go:125-157 | no call ever unlocks a mutex it does not hold or closes a channel that is closed already: each channel is closed at most once |
| SingleFlight.StepsAreBounded | internal/observe/service.go:125-157 | in every interleaving the calls begun since the process started take at most twelve steps per call in all, so if scans end every caller returns |
| SingleFlight.ReturnsFreshOutcome | internal/observe/service.go:126-156 | a call returns an outcome published after it began, never `never`: its own, or that of the joined scan or a later one, and the joined scan's exactly when the index read is the joined one; its class is that of the error the scan behind it failed with, or success |
| SingleFlight.StaleExactly | internal/observe/service.go:126-156 | the outcome comes from a scan that had itself already returned when the call began if and only if a returned scan was then still unpublished and its outcome is the one the call read; the call has then joined that very scan |
| SingleFlight.StaleJoinHappens | internal/observe/service.go:126-156 | a concrete run in which that happens: the promise "never the outcome of a scan finished earlier" holds for published scans only |
| CatalogStore.Store.CommitAdoptionBatch | internal/catalog/adopt.go:112-247 | whatever statement fails and wherever the process crashes, the tables are the old ones or exactly the old ones plus the whole batch: no old row changes, and the returned result is recorded under the operation and names each new Project, Publication and manifest row once, with its own identity, path, prefix, object count and bytes; without faults acceptance is exactly the stated condition |
| Atomicity.BatchIsAtomic | internal/catalog/adopt.go:165-233 | inserting the batch row by row succeeds if and only if the whole batch fits the constraints, and then yields exactly the old tables plus all of its rows |
| CommitRuns.OperationChangesOnce | internal/adoption/commit.go:81-117 | over any interleaved run an operation ID changes the catalog at most once |
| CommitRuns.SuccessesAgree | internal/adoption/commit.go:81-117 | two successes with one operation ID return the same recorded result for the same plan digest, whenever they happen |
| RoundTrip.AcceptedIsOldPlusPlanned | internal/adoption/commit.go:130-178 | after an accepted commit the accepted manifests are the earlier ones unchanged plus exactly one per planned Publication, with exactly its objects |
| RoundTrip.ResultCountsWhatWasAdded | internal/catalog/adopt.go:177-228 | the recorded object count and accepted size are exactly the objects and bytes the commit adds to the accepted manifests |
| Acceptance.AcceptanceExact | internal/catalog/adopt.go:127-153 | a rechecked plan is accepted if and only if its operation ID is new, none of its prefixes is managed, the generated identities do not clash and no size is negative; nothing else in the checks or the schema can refuse it |
| Ownership.AcceptedObjectsAreGone | internal/adoption/plan.go:198-221 | a further commit can be accepted only while the bucket listing of its recheck holds none of the objects accepted before |
| CommitRuns.ReachableScanIsSound | internal/observe/scan.go:94-143 | on a reachable catalog every completed scan of a duplicate-free listing accounts for every byte; lock none implies listed keys equal accepted keys, no unclaimed bytes and total equal to accepted; any other lock is global; the result can be recorded |
| Listing.ListObjects | internal/storage/reader.go:110-160 | with the bucket changing between pages by any schedule, the listing is strictly ascending, holds only entries some page request found, field by field, and every non-empty key all of them found, ends within one page more than there are keys, and fails exactly with the first failing request: 404 is not found; 408, 429, 500 and above and a failed request are unavailable; any other status, or a body that cannot be read, is misconfigured |
| Migrations.RunsKeepPrefix | internal/catalog/catalog.go:115-150 | any sequence of interrupted Migrate runs, by any releases, leaves exactly the first n migrations with user_version n, and never goes back |
| Text.UnderIsSegmentwise | internal/adoption/declaration.go:119-121 | a path is the same as or below another exactly when its segments start with the other's segments |
| Text.LessExact | internal/observe/scan.go:116-116 | the order all sorting uses: the first difference decides, and a proper prefix comes first |
| Text.OwnersOverlap | internal/adoption/declaration.go:100-121 | two paths that own one key overlap |
| Text.DifferentPrefixesApart | internal/adoption/declaration.go:215-259 | paths under two different one-segment prefixes never overlap |
| Declarations.ValidateProbes | internal/adoption/declaration.go:167-185 | accepts exactly the probe lists that are not empty, in range, well-formed and without a repeated path |
| Declarations.ValidatePublication | internal/adoption/declaration.go:124-165 | accepts exactly the valid Publication declarations |
| Declarations.CheckBoundaries | internal/adoption/declaration.go:100-121 | accepts exactly when no declared path equals or nests in another |
| Declarations.ValidateNext | internal/adoption/declaration.go:75-96 | the per-Publication step of validation rejects only invalid declarations and carries the claimed keys and names |
| Declarations.Validate | internal/adoption/declaration.go:62-98 | accepts exactly the valid declarations |
| DeclarationFacts.DeclarationExact | internal/adoption/declaration.go:62-121 | a declaration is valid exactly when each Publication passes the rules in plain terms, the names of one Project agree, and no path is or extends another |
| DeclarationFacts.PublicationExact | internal/adoption/declaration.go:124-185 | one Publication passes exactly when its prefix, path, keys, entry point, mode and probes do, character by character and segment by segment |
| DeclarationFacts.AcceptedIsSafe | internal/adoption/declaration.go:215-285 | every path and key of an accepted declaration lies under a one-segment prefix that has no leading dot and is not the manager's in any letter case, and holds no empty, dot or dot-dot segment and no control, question mark or hash character |
| DeclarationFacts.SplitIsUnique | internal/adoption/declaration.go:263-271 | splitting at slashes is the one way to write a text as slash-free segments |
| Declarations.SharedObjectIsInvalid | internal/adoption/declaration.go:80-88 | a key declared twice already violates the path boundaries, so the seen-objects check rejects nothing more |
| Declarations.KeyHasOneOwner | internal/adoption/declaration.go:100-121 | in a valid declaration at most one Publication path owns a key |
| Declarations.ValidImpliesObjectsApart | internal/adoption/declaration.go:62-98 | no object key is declared by two Publications of a valid declaration |
| Declarations.WhitespaceRejectedExactly | internal/adoption/declaration.go:273-285 | whitespace inside an otherwise good value is rejected exactly when it is a control character |
| Declarations.SpaceIsAccepted | internal/adoption/declaration.go:273-285 | a concrete object key with a space |
| Declarations.ValidKeysAreUnder | internal/adoption/declaration.go:231-259 | declared keys lie under their path and their Project prefix |
| Declarations.CanonicalURLsDiffer | internal/adoption/declaration.go:293-300 | non-overlapping Publications have different canonical URLs in every mix of routing modes |
| Declarations.ProbeURLsDistinct | internal/adoption/declaration.go:302-307 | all probe URLs of one valid declaration are pairwise distinct |
| Declarations.RelativePathRebuilds | internal/adoption/declaration.go:310-319 | a key other than the path is rebuilt from its relative path |
| Declarations.RelativePathCollision | internal/adoption/declaration.go:310-319 | two keys of one Publication share a relative path exactly when one is the path a/x itself and the other a/x/x |
| Planning.PlanObjects | internal/adoption/plan.go:138-167 | plans the objects exactly when each is listed and readable, with the newest modification time; otherwise it names the first key that is not and why |
| Planning.PlanProbes | internal/adoption/plan.go:170-193 | plans the probes exactly when each is answered with the expected status; otherwise it names the URL of the first that is not and the status seen |
| Planning.PlanPublication | internal/adoption/plan.go:128-195 | succeeds exactly when the Publication is plannable; objects fail before probes |
| Planning.CheckNoUnexpectedObjects | internal/adoption/plan.go:198-221 | accepts exactly when every listed key is declared |
| Planning.BuildPlan | internal/adoption/plan.go:76-126 | succeeds exactly when the declaration is valid, everything listed is declared and everything declared is plannable; the plan verifies against its own digest; otherwise it reports the first check that fails, down to the first Publication, key or probe URL with its error or status |
| Planning.PlannedObjectsExact | internal/adoption/plan.go:138-169 | a planned Publication holds each declared key once, in key order, exactly as listed and read |
| Planning.PlannedPublicationExact | internal/adoption/plan.go:128-195 | the i-th planned Publication carries the i-th declaration and its sorted objects |
| Planning.PlanCoversBucket | internal/adoption/plan.go:99-111 | the planned keys are exactly the listed keys |
| Planning.PlanHoldsKeyOnce | internal/adoption/plan.go:99-111 | no key is planned twice |
| PlanFacts.PlanExact | internal/adoption/plan.go:76-195 | every planned Publication is the declared one with what storage and routes showed: each object's size, ETag, time to the second, metadata, digest and relative path; each probe's URL, status, content type and body digest; the newest time; the declared name or the prefix or last segment; an exact file's URL ending in its entry point and any other in its path |
| PlanFacts.DigestPinsStorage | internal/adoption/commit.go:97-106 | plans with equal digests were made of equal declarations, base URLs, keys, bytes, metadata, times to the second and probe answers: a change of any of them between planning and recheck changes the digest |
| Storage.ObservedIsLast | internal/adoption/plan.go:95-98 | of several listing entries with one key the last is the observed one |
| Listing.Server.Apply | internal/storage/s3test/server.go:90-101 | of each key the last change counts, a key without one keeps what it had, and no key outside the universe appears |
| Listing.UnchangedViews | internal/storage/s3test/server.go:180-231 | without changes every page request finds the same bucket |
| Listing.Server.List | internal/storage/s3test/server.go:180-231 | a page holds the first keys after the token, in order, as the bucket then is, and says whether more follow |
| Listing.SliceIsPage | internal/storage/s3test/server.go:199-228 | cutting the ordered keys after the token at the page size gives the page owed to that token |
| Listing.PageExtends | internal/storage/reader.go:116-159 | appending a page extends a partial listing exactly up to the page's last key |
| Listing.StaticListing | internal/storage/reader.go:110-160 | on an unchanging bucket the listing is exactly its non-empty keys, each with the size, ETag and time stored under it |
| Listing.ListingsOfOneBucketAgree | internal/storage/reader.go:110-160 | listings of one unchanging bucket are equal, however they were paged |
| Batches.NormalizeBatchProjects | internal/catalog/adopt.go:251-290 | accepts exactly the batches with nothing missing, no repeated prefix and no path declared twice, within a Project or across two, and returns the same Projects in strict prefix order, each with the same Publications in strict path order |
| Batches.CheckPublications | internal/catalog/adopt.go:270-284 | accepts exactly when every path is present, new and has objects |
| Batches.CommittedSchemaOk | internal/catalog/migrations/001_initial_schema.sql:16-63 | an accepted batch keeps every constraint, and every current manifest belongs to its Publication |
| Batches.ManagedPrefixRejects | internal/catalog/adopt.go:127-135 | the prefix precheck rejects only what the UNIQUE constraint rejects |
| Batches.ManagedPathRejects | internal/catalog/adopt.go:137-145 | the path precheck rejects only what the UNIQUE constraint rejects |
| Atomicity.PlaceStep | internal/catalog/adopt.go:177-214 | one Publication's rows insert exactly when its placement fits, and add exactly that placement |
| Atomicity.ProjectStep | internal/catalog/adopt.go:162-170 | a Project row inserts exactly when its identity and prefix fit |
| Transactions.InsertPublicationRows | internal/catalog/adopt.go:180-214 | without faults all rows of a Publication insert exactly when the constraints admit them |
| Transactions.InsertProjectPublications | internal/catalog/adopt.go:172-228 | accumulates one entry per Publication of a Project, with its own identities, path, object count and bytes, and the totals |
| Transactions.InsertProjects | internal/catalog/adopt.go:162-230 | the nested insert loops build the result that is recorded: one entry per Project and Publication of the batch, with the identities they were inserted under, their path, object count and bytes |
| Transactions.CheckUnmanaged | internal/catalog/adopt.go:126-145 | without faults the prechecks pass exactly when no declared prefix or path is in the tables |
| Transactions.ManagedRejects | internal/catalog/adopt.go:126-145 | what the prechecks refuse, the constraints refuse as well |
| Transactions.Prepare | internal/catalog/adopt.go:112-241 | everything before COMMIT: yields the committed tables and the recorded result that names their new rows, or stops without effect; only a crashing statement reports a crash |
| Results.BatchResultExact | internal/catalog/adopt.go:177-228 | no old row changes and nothing but the batch is added; the recorded result has exactly one entry for each new Project and Publication row, which names that row's own identity, path, Project, prefix and manifest and the number and bytes of the manifest's rows |
| CatalogStore.Store.FindOperation | internal/catalog/adopt.go:92-105 | finds exactly the recorded operations |
| Commits.AdoptProjects | internal/adoption/commit.go:130-159 | groups planned Publications into one Project per prefix, by prefix (what the rows then hold is `DeclaredRows.DeclaredRowsExact`) |
| Commits.PlacementIsPlanned | internal/adoption/commit.go:130-178 | every placed Publication is a planned one, field by field, under its own prefix |
| Commits.PlannedIsPlaced | internal/adoption/commit.go:130-178 | every planned Publication is placed, field by field, in the Project of its prefix |
| DeclaredRows.DeclaredRowsExact | internal/adoption/commit.go:130-178 | after an accepted commit each declared Publication has a new row with its path, entry point, routing mode, its declared name or the prefix or last segment, and the newest of its objects' times to the second; its Project row has the declared prefix and name; its manifest holds exactly its keys as storage showed them; and every new Publication row is of a declared one |
| Commits.RecheckPinsContent | internal/adoption/commit.go:100-113 | a recheck that reproduces the digest pins the approved content to the storage it saw |
| Commits.RecheckOfUnchangedWorld | internal/adoption/commit.go:97-106 | on unchanged storage and routes a plan passes its recheck exactly when its base URL normalizes to itself |
| Commits.RecheckNeedsSettledBase | internal/adoption/commit.go:97-106 | on unchanged storage and routes a plan passes its recheck exactly when its base URL ends in neither a slash nor a space |
| Commits.DoubledSlashNeverCommits | internal/adoption/commit.go:97-106 | a plan made for a base URL that ends in a doubled slash never passes its recheck |
| BaseURLs.NormalizesToItself | internal/config/config.go:23-39 | a normalized base URL normalizes to itself exactly when it ends in neither a slash nor a space |
| BaseURLs.NormalizeExact | internal/config/config.go:23-39 | what is left of an accepted base URL is all of it but the spaces around it and one slash before those that follow |
| BaseURLs.DoubledSlash | internal/config/config.go:23-39 | a concrete base URL that normalization leaves unsettled |
| Commits.ApprovedApart | internal/adoption/commit.go:100-113 | approved Publications own disjoint path spaces |
| Commits.ApprovedUnder | internal/adoption/commit.go:100-113 | approved keys, paths and entry points lie under their Project prefix |
| Commands.Commit | internal/adoption/commit.go:49-117 | a recorded operation, and only a recorded one, is answered from its record without reading storage or changing the catalog; a bad call fails; otherwise the catalog changes only by the whole rechecked batch, and then every declared Publication has its rows as declared and as storage showed them, and every new row is of a declared one; the result names the new rows; only a crashing statement loses the answer; without faults success is exactly acceptance; ownership is kept |
| Commands.CommitNew | internal/adoption/commit.go:99-117 | recheck and transaction of an operation not on record: what is stored is the declaration as declared and seen, and the result names its rows |
| Ownership.KeyHasOnePublication | internal/catalog/observation.go:55-101 | no object key is in two Publications' current manifests |
| Ownership.KeyHasOneRow | internal/catalog/migrations/001_initial_schema.sql:50-63 | no object key is in two rows of manifest_objects, although the schema is unique per manifest only |
| CommitRuns.ReachableKeysUnique | internal/catalog/migrations/001_initial_schema.sql:50-63 | in every reachable catalog no object key is in two rows of manifest_objects |
| CommitRuns.LookupIsAStep | internal/adoption/commit.go:81-95 | looking up the operation is a step of the run |
| CommitRuns.RecheckIsAStep | internal/adoption/commit.go:97-106 | planning again and comparing digests is a step of the run |
| CommitRuns.TransactionIsAStep | internal/catalog/adopt.go:112-247 | the transaction, whatever befalls it, is a step of the run: it takes effect as a whole or stops the call |
| Ownership.PublicRoutesDistinct | internal/adoption/declaration.go:293-300 | canonical URLs of accepted Publications are pairwise distinct |
| Ownership.AcceptedManifestsShareNothing | internal/catalog/observation.go:55-101 | accepted manifests of an owned catalog share no key |
| Ownership.PathsApart | internal/catalog/adopt.go:127-145 | a new path is clear of every other path, by boundaries within the batch and by prefix across batches |
| Ownership.CommitKeepsOwnership | internal/catalog/adopt.go:112-247 | every accepted commit keeps the schema and ownership |
| CommitRuns.StepKeepsInv | internal/adoption/commit.go:49-117 | every step of every commit call keeps schema, ownership and the records of earlier operations |
| CommitRuns.ChangeRecordsOperation | internal/catalog/adopt.go:147-153 | only a transaction changes the catalog, and it records an operation that was not on record |
| CommitRuns.OperationsKeptBetween | internal/catalog/adopt.go:235-240 | recorded operations are never changed or removed |
| Observations.GroupRows | internal/catalog/observation.go:68-100 | groups join rows by Publication in order of first appearance |
| Observations.GroupedJoinIsAccepted | internal/catalog/observation.go:55-101 | the grouped rows are exactly the accepted manifests: each current manifest once, by path, with its objects by key |
| Observations.AcceptedManifestsUnique | internal/catalog/observation.go:55-101 | tables determine their accepted manifests |
| CatalogStore.Store.AcceptedManifests | internal/catalog/observation.go:55-101 | returns the accepted manifests of the tables |
| CatalogStore.PrepareObservation | internal/catalog/observation.go:126-172 | the inserts of an observation succeed exactly when the record and identities are good |
| CatalogStore.Store.RecordObservation | internal/catalog/observation.go:126-175 | records the whole observation or nothing, without touching accepted state |
| Observations.RecordKeepsConstraints | internal/catalog/migrations/001_initial_schema.sql:67-82 | recording keeps the constraints of the observation tables |
| Observations.StateStep | internal/catalog/observation.go:156-169 | a state row inserts exactly when its entry and identity are good |
| Observations.CollectStates | internal/catalog/observation.go:241-264 | collects exactly the states of one observation |
| CatalogStore.Store.LatestObservation | internal/catalog/observation.go:207-266 | reads back the row with the latest time, the last inserted among equals, and its states |
| Observations.RecordRoundTrip | internal/catalog/observation.go:126-266 | the record just written reads back unchanged, its time to the second, when no earlier row is later |
| Observations.MorePublicationsKeepObservations | internal/catalog/migrations/001_initial_schema.sql:74-82 | an adoption keeps the observation tables valid |
| Scanning.WithinToleranceExact | internal/observe/scan.go:283-292 | the tolerance is one second, except that an observed time 2^63 ns or more before the accepted one passes too |
| Scanning.ToleranceAdmitsAncientTime | internal/observe/scan.go:283-292 | a concrete pair of such times |
| Scanning.TruncationTolerated | internal/observe/scan.go:283-292 | whole seconds stay within tolerance except inside the first second after the zero time |
| Scanning.NoDiffsIsUnchanged | internal/observe/scan.go:208-248 | no difference is noted exactly when listing and metadata are the accepted ones |
| Verdicts.CompareExact | internal/observe/scan.go:203-273 | on every view, by LIST, HEAD and GET alone: a comparison succeeds exactly when every request made is answered or not found, counts the object as present exactly when every request made finds it, as clean exactly when it is as accepted, and downloads exactly what differs or everything in a complete reconciliation |
| Verdicts.DiffsExact | internal/observe/scan.go:208-243 | each difference is noted exactly once, in order, with the accepted and the observed value |
| Verdicts.FindingExact | internal/observe/scan.go:203-269 | a finding is of its object's key, missing exactly when a request did not find it, and else lists every difference and whether the downloaded bytes differ |
| Verdicts.VerdictExact | internal/observe/scan.go:154-198 | on every view, also when objects vanish between requests: missing, in sync and drifted, the observed size and the status detail are those manifest and storage demand |
| Verdicts.ScanVerdicts | internal/observe/scan.go:118-124 | every Publication of a completed scan has that verdict |
| Verdicts.ScanErrorExact | internal/observe/scan.go:118-124 | a scan fails with the error of its first failing request, by Publication and object |
| Verdicts.FirstFailureUnique | internal/observe/scan.go:118-124 | there is one such error |
| Scanning.ScanPublication | internal/observe/scan.go:154-198 | the verdict on one Publication with its status detail (by `Verdicts.VerdictExact` the one storage demands); the first failing comparison stops it with its error |
| Scanning.DescribeFindingsExact | internal/observe/scan.go:307-346 | the detail shows the first findings by key, at most five, strictly by key when keys differ, and counts the others |
| Scanning.StatusDetailExact | internal/observe/scan.go:193-196 | the detail of a drifted Publication invents no finding and accounts for every object that is not as accepted |
| Scanning.ClaimManifests | internal/observe/scan.go:103-110 | claims exactly the accepted keys and sums the accepted bytes |
| Scanning.CollectUnclaimed | internal/observe/scan.go:111-116 | the unclaimed keys, sorted, and their bytes, for every iteration order |
| Scanning.Scan | internal/observe/scan.go:84-134 | completes exactly when LIST and every comparison do; the result is fixed by what was listed and answered, an error is that of the first failing comparison |
| Scanning.ScanIsDetermined | internal/observe/scan.go:84-134 | map iteration order leaves no trace in the result |
| Scanning.ListedBytesIsSum | internal/observe/scan.go:94-99 | the running total of a duplicate-free listing is the sum over its keys |
| Scanning.Record | internal/observe/scan.go:60-78 | the durable form of a result, entry by entry (what inserting it stores is `Scanning.StoredExactly`) |
| Scanning.StoredExactly | internal/catalog/observation.go:126-172 | recording a scan adds its observation row, the time to the second, and exactly one state row per accepted manifest with that manifest's state, size and detail; the old rows are unchanged |
| Reports.LatestReportsStorage | internal/catalog/observation.go:207-266 | reading back after a stored scan reports its lock, usage and unclaimed keys, and exactly the accepted Publications, each missing, drifted or in sync as its manifest and storage demand |
| Reconciliation.UsageConserved | internal/observe/scan.go:94-131 | total bytes are the unclaimed bytes, plus what Publications observe, plus what was listed and gone by HEAD or GET |
| Reconciliation.ObservedWithinTotal | internal/observe/scan.go:167-192 | Publications observe at most the claimed part of the total, and exactly it when nothing vanishes |
| Reconciliation.LockNoneCertifiesBucket | internal/observe/scan.go:118-131 | lock none certifies the bucket: same keys, no unclaimed bytes, total equal to accepted, every object clean |
| Reconciliation.LockNoneExact | internal/observe/scan.go:118-143 | on every view lock none holds exactly when the listed keys are the accepted ones and every object is there with the accepted listing, metadata and, in a complete reconciliation, bytes |
| Reconciliation.ObjectExact | internal/observe/scan.go:203-273 | presence, cleanness and the download decision of one object; an ordinary scan downloads exactly what differs |
| Reconciliation.ClassificationExact | internal/observe/scan.go:154-198 | in sync, drifted and missing on settled storage, each characterised by manifest and storage alone |
| Reconciliation.CompleteRefinesOrdinary | internal/observe/scan.go:203-273 | a complete reconciliation agrees on missing, and in sync there is in sync plus equal bodies |
| Reconciliation.ScanIsRecordable | internal/observe/scan.go:60-78 | a scan of a catalog's own manifests meets every check and constraint of recording |
| Commands.Run | internal/observe/run.go:16-29 | read, scan, record: accepted state untouched; a failed LIST is the error reported and records nothing; so does the first HEAD or GET that fails; a scan whose requests are all answered is stored exactly as it is, one row per accepted manifest with that manifest's state, size and detail, or not at all |
| AdoptThenObserve.TimeKeptExact | internal/observe/scan.go:283-292 | exactly when an accepted time survives being stored to the second |
| AdoptThenObserve.FirstSecondIsLost | internal/observe/scan.go:283-292 | a known time can fall out of tolerance by being stored to the second |
| SingleFile.FirstSecondDrifts | internal/observe/scan.go:154-198 | a file modified in the first second after the zero time is reported drifted, under a global lock, right after its adoption |
| AdoptThenObserve.FreshObjectClean | internal/adoption/plan.go:138-169 | a freshly planned object differs from unchanged storage at most in its time |
| AdoptThenObserve.NewManifestPlanned | internal/catalog/observation.go:68-100 | a newly accepted manifest is a planned Publication, object for object |
| AdoptThenObserve.NewPublicationInSync | internal/observe/scan.go:154-198 | what was just accepted is in sync exactly when its times are kept, and otherwise drifted |
| AdoptThenObserve.OldPublicationMissing | internal/observe/scan.go:167-192 | after a further adoption every earlier Publication is missing |
| AdoptThenObserve.NothingUnclaimed | internal/observe/scan.go:111-116 | the listing holds nothing the accepted manifests do not claim |
| SingleFile.SingleFileIsAccepted | internal/adoption/commit.go:49-117 | a one-object bucket whose key is a valid prefix, declared as an exact file under a base URL that normalizes to itself, is accepted by every owned catalog to which its names are new |
| SingleFile.AfterSingleFile | internal/catalog/adopt.go:112-247 | the catalog then holds this one Publication more, with this one object, and nothing else |
| SingleFile.TwoAdoptions | internal/catalog/adopt.go:112-247 | a second such file is accepted after the first is gone from the bucket; the first keeps its manifest and is then observed missing |
| SingleFile.SamplesShowBoth | internal/observe/scan.go:154-198 | concrete files for both: one drifts in its first second, one goes missing behind a second adoption |
| SingleFile.SingleFileEndToEnd | internal/observe/scan.go:94-143 | scanning that bucket after the commit finds nothing unclaimed and sets no lock exactly when the object's time survives |
| Service.Service.constructor | internal/observe/service.go:77-94 | a new service is idle and reports `never` |
| Service.Service.Enter | internal/observe/service.go:126-143 | the first section of Refresh joins the running scan or claims a new channel |
| Service.Service.Publish | internal/observe/service.go:151-156 | the last section sets the outcome, clears running and closes a channel that was open |
| SingleFlight.StateReports | internal/observe/service.go:160-164 | State reports running exactly while a claimed scan runs or waits to publish, and the last published outcome, `never` only before any |
| Service.Service.Refresh | internal/observe/service.go:125-171 | an uncontended refresh scans once, publishes its outcome and leaves nothing running; the outcome is unavailable, misconfigured or failed as the error of LIST or of the first failing HEAD or GET is, and failed for a completed scan that is not recorded; success records exactly the scan, anything else records nothing, and only errors, faults or clashing identities prevent success |
| Service.SectionsAreAtomic | internal/observe/service.go:125-157 | while one call holds the mutex no step of another call touches the shared fields |
| SingleFlight.OutcomeOf | internal/observe/service.go:42-54 | succeeded exactly for a result, unavailable exactly for an unavailable storage, misconfigured exactly for a misconfigured one, failed for every other error |
| SingleFlight.StepKeepsInv | internal/observe/service.go:125-157 | every statement of every call, a clock tick or a restart keeps the protocol invariant |
| SingleFlight.JoinersHaveALeader | internal/observe/service.go:128-131 | whoever waits on an unclosed channel waits for a call that will close it |
| SingleFlight.StepLowersWork | internal/observe/service.go:125-157 | every step of a call lowers the remaining work |
| SingleFlight.QuietWhenAllReturned | internal/observe/service.go:151-156 | when all calls have returned every channel is closed and nothing runs |
| SingleFlight.JoinerReadsLatest | internal/observe/service.go:132-134 | a woken joiner reads the latest published outcome: the joined scan's unless a later one was published |
| SingleFlight.LatestIsLastRecorded | internal/catalog/observation.go:211-216 | over any run, with restarts and adoptions between processes, under a clock that does not go back, the latest observation is the one recorded last |
| SingleFlight.OnlySuccessRecords | internal/observe/service.go:166-171 | only a successful scan records; its record becomes the latest observation, and every other step leaves the rows alone |
| SingleFlight.SuccessesAreRecorded | internal/observe/service.go:166-171 | while nothing runs, the observations of this process are exactly as many as its published successes |
| Migrations.CheckRecords | internal/catalog/catalog.go:187-195 | accepts exactly when every applied version is known with its checksum |
| Migrations.HoldingAllIsExact | internal/catalog/catalog.go:196-201 | a history of N versions that holds each of 1..N is exactly 1..N |
| Migrations.VerifyKnownHistory | internal/catalog/catalog.go:182-203 | accepts exactly the checksum-matching prefixes of the embedded migrations |
| Migrations.Database.ApplyMigration | internal/catalog/catalog.go:205-228 | one migration takes effect as a whole or not at all |
| Migrations.Database.Migrate | internal/catalog/catalog.go:115-150 | any history that is no prefix is refused untouched; otherwise some of the missing migrations are applied in order, and all of them on success; a clean catalog stays clean and an uninterrupted run completes it |
| Migrations.Database.VerifySchema | internal/catalog/catalog.go:253-278 | before the integrity check, passes exactly for the complete history with its user_version |
| Migrations.KnownExactly | internal/catalog/catalog.go:182-203 | a release accepts a catalog's history exactly when no later release has migrated it further |
| Migrations.OpensExactly | internal/catalog/catalog.go:253-278 | a release opens exactly the catalogs it has finished migrating, and none if it has no migrations |

## Left out

- HTTP transport, request signing, XML, JSON and base64 encodings, and SHA-256 itself: a page token is the key it encodes, and digests are constructors.
- `flock` and the lock file: kernel behaviour; the theorems rest on serializable transactions and never on mutual exclusion between processes.
- SQLite internals, pragmas other than `user_version`, `quick_check` and write-ahead logging.
- Observations with a status other than complete: no code writes them.
- The wording of errors and of status details: errors are classes, and a status detail is the findings its text is joined from.
- Columns that no decision reads: descriptions, entity revisions, created and updated times, the applied_at of a migration.
- `AdoptionResult.CommittedAt`: declared by the source but never set by it.
- RFC 3339 formatting and its parse errors: stored times are taken to be well-formed, and text order to be chronological.
- 64-bit overflow of byte totals: sums are unbounded integers. The saturating arithmetic of the time tolerance is modelled.
- Strings that are not valid UTF-8, and case folding beyond the ASCII letters of the reserved prefix.
- Several HEAD or GET requests for one key in a scan: each key is asked at most once, because accepted manifests share no key.
- `Start`: only its repeated calls of Refresh are covered, as arbitrary new callers; delays and cancellation are not.
- Starvation on the mutex while new callers keep arriving: termination is stated as a bound on the steps of the calls begun.
- Reading, routing, authentication, preview, configuration and the user interface: thin, or settled by reading one branch.
- Move, delete, replace and break-glass operations: described in documents, without code.
- Service.Service.Refresh: covers the call that meets no other; contended calls are `SingleFlight`.
