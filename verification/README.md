# A model of rift-cluster's clustered write path

rift-cluster runs the rift mock server as a fleet. Every admin write becomes one or more control
ops in a replicated log; every node applies that log to the same tables. This project models that
path in Dafny and proves what it promises, together with the text formats, the lifecycle and the
fleet-wide reads around it.

The model is in layers:

- `Control`, `StateMachine`: the op set, its validation, preconditions and mutation, and what
  applying one committed entry does, dedup table and replicated clock included. `Dedup`,
  `Revisions`, `Recording`, `StubIds` prove what holds along every log. `Placement`: where a
  recording puts its stub. `Outcomes`: when an op applies, why it is refused, and what becomes of a
  recording's marker.
- `IfMatch`, `Routing`, `Mutation`: how a request becomes ops: route, body, precondition, op ids.
  `Building`: when a route builds a mutation, and what it answers when it does not. `RouteEffects`:
  what each op of a route leaves in the tables, said without the op.
- `StubEdits`, `ReplaceAll`, `Replays`, `Retries`: writes that read first, and writes of many ops
  that can stop half-way, be replayed in any order, or be retried under the same key or another.
- `WritePath`: one node's parked table, and the methods that park, submit, unpark and sweep.
  `FrontDoor`: what the front hands on for a request, in the request's own terms, and what that
  means in every log.
  `Cluster`: any number of nodes, tasks, crashes and replays over one log, as a state machine over
  its steps. `ClusterRuns` shows the submit loop, a whole front write and the sweep of `WritePath`
  to be runs of `Cluster`, and builds the runs that reach its corners.
- `Session`, `AcceptLoop`, `Fleet`: sessions over lagging nodes, how the accept loop's end reaches
  its waiters, and reads folded from every voter.
- `Query`, `Cookies`, `Ordering`, `SplitMix`, `DesignCheck`: the text pipeline, the response order,
  the generator, and two algorithms of the design checker. `Text` holds the string lemmas.

A log is a sequence of payloads; the payload at position `i` has log index `i + 1`. What the
outside world decides is a parameter: whether a durable write succeeded, what a submit came back
with, the wall clock a request is stamped with, how long its serialized form is, which peers
answered.

Twelve promises turn out to hold only under a condition; the lemmas named show the failure and say
when the promise holds:

- An op's status can differ between replicas that cut one log into different apply batches. A
  replica reports an op if and only if some entry that ran under its id is in the replica's last
  batch or had not expired when that batch began, and two replicas agree if and only if both or
  neither do (`Dedup.StatusIsReported`, `Dedup.StatusAgreesIff`,
  `Dedup.StatusCanDisagreeAfterExpiry`).
- The door and apply agree on what an `If-Match` can condition on every route with two exceptions:
  on clearing saved proxy responses the door admits what apply refuses in every state, and on a
  `PUT /imposters` of one config with nothing to prune the door refuses what apply could condition
  (`Mutation.DoorAndApplyAgreeIff`, `Mutation.ConditionedClearNeverApplies`,
  `Mutation.LonePutIsRefusedAtTheDoor`). The comment at
  crates/rift-cluster-server/src/admin_front.rs:4588-4591 asks the two to agree; the code is
  followed.
- A stub edit that carries a current `If-Match` can still overwrite an update when the node's own
  read is behind; it cannot exactly when the node read the row at the revision the write carries
  (`StubEdits.StaleReadLosesAnUpdate`, `StubEdits.NoLostUpdate`).
- `PUT /imposters` ends at exactly the body's ports if and only if the node that built it knew
  every configured port outside the body (`ReplaceAll.FullRunIsExact`).
- Its entries can be replayed in any order and any number of times and end alike if and only if the
  body gives no port two configs (`Replays.ReplaysAgreeIff`, `Retries.SubmittedIsConsistentIff`).
- A retry of it under the same key is matched by position, so a changed prune list is answered from
  the old one and lost (`Retries.KeyedRetryCanLoseAPrune`). Whichever of its ids are live, what it
  leaves is known in closed form (`Retries.KeyedRetryLeaves`). It ends at its body if and only if
  every port already stands as the body asks or has an op of the retry whose id is not live
  (`Retries.KeyedReplaceIsExactIff`; `Retries.KeyedRetryEndsAtIff` for bodies that give a port two
  configs).
- A retry of one body under another key, or of the same ops under the same key, heals whatever is
  replayed around it (`Retries.FreshRetryHeals`). A changed body does not: a put reported as timed
  out stays parked, and its replay overwrites a later committed put of the same port, for the last
  entry to run on a port is what the port holds (`ClusterRuns.ReplayCanUndoALaterWrite`,
  `Retries.LastRunWins`).
- An accepted op is parked or terminal at every moment (`Cluster.AcceptedIsParkedOrTerminal`). Over
  an upgrade an op that an older binary left parked can be lost if and only if its request is too
  large to replicate, as crates/rift-cluster-server/src/compose.rs:1680-1681 says
  (`Cluster.UpgradeKeepsAccepted`, `Cluster.OnlyInheritedIsDropped`,
  `ClusterRuns.InheritedCanBeLostIff`).
- The comment at crates/rift-cluster-server/src/cluster_api.rs:427-428 gives an op-status 404 two
  meanings, unknown and lapsed. It has a third, committed but not applied here yet, and because it
  is two reads it can miss a live record (`Cluster.AcceptedOpIsUnknownOnlyWhen`,
  `Cluster.OpIsUnknownIff`, `ClusterRuns.AcceptedOpCanBeUnknown`,
  `ClusterRuns.TwoReadsCanMissALiveRecord`).
- Clearing recorded responses twice can strip more than clearing them once, exactly when a stub
  that names its proxy mixes recorded and other responses (`Recording.ClearIsIdempotentIff`,
  `Recording.SecondClearChangesIff`, `Recording.ClearingTwiceCanChangeTwice`). The comment at
  crates/rift-cluster/src/raft/store.rs:2852-2853 calls clearing the markers idempotent, and that
  part is; the stub filter is not.
- Stub ids stay unique if and only if no recording is applied under an id its imposter already
  holds, because a recorded stub is placed unchecked (`StubIds.IdsStayUniqueIff`,
  `StubIds.DerivedIdCanRepeat`).
- The id derived for a recorded stub is called unique at
  crates/rift-cluster/src/raft/store.rs:2785-2788; it is taken exactly when a stub already bears
  this very log index as its suffix, which a client's put can arrange
  (`StubIds.DerivedIdIsTakenIff`, `StubIds.DerivedIdCanRepeat`). For a signature that is not
  lower-case hex it is taken when its base id is there; the fleet prints its signatures in lower
  case (crates/rift-cluster/src/stores/proxy.rs:112-116), so it makes none of those.

## Model

| member | source | states |
|---|---|---|
| Control.ApplyEdit | crates/rift-cluster/src/control.rs:932-1005 | an edit script either applies in full, leaving what its steps leave one after the other, or is refused at its first failing step with the list untouched |
| Outcomes.ScriptIsItsSteps | crates/rift-cluster/src/control.rs:932-1005 | a script is refused exactly at its first step that cannot run, with that step's reason, and otherwise leaves the list its steps lead to: a stub added at its position or the end, the first stub of an id replaced or gone, the stubs of a space gone, one stub moved and the rest in order |
| Outcomes.ValidatesIff | crates/rift-cluster/src/control.rs:685-855 | exactly which ops pass validation, field by field: the key's 64 hex digits, the fleet name's length and characters, the signature, the 10 MiB body, ports, protocol, unique ids; every other is refused as invalid |
| Control.PositionOfId | crates/rift-cluster/src/control.rs:932-1005 | the first stub that carries an explicit id, and none only if none does |
| Control.EditsKeepIdsUnique | crates/rift-cluster/src/control.rs:829-1005 | every edit script keeps explicit stub ids unique, the property validation demands of a whole config |
| StateMachine.ReplicaStore.constructor | crates/rift-cluster/src/raft/store.rs:488-531 | a new store has empty tables, no dedup rows and a zero clock |
| StateMachine.ReplicaStore.Apply | crates/rift-cluster/src/raft/store.rs:3764-3918 | one apply transaction sweeps expired dedup rows once, then leaves the state and answers the responses of its entries in order |
| Dedup.BatchingDoesNotMatter | crates/rift-cluster/src/raft/store.rs:2057-2073 | however a log is cut into apply batches, tables, clock and every response are those of applying it in one go; only expired dedup rows can be missing |
| Dedup.ReplicasAgree | crates/rift-cluster/src/raft/store.rs:3764-3918 | two replicas that batched one log differently agree on tables, responses and on what every later entry would be answered from |
| Dedup.StatusIsReported | crates/rift-cluster/src/raft/store.rs:1896-1914 | a replica reports an op if and only if some entry that ran under its id is in the replica's last batch or had not expired when that batch began, however the log was batched |
| Dedup.StatusIsLastRun | crates/rift-cluster/src/raft/store.rs:1896-1914 | what a replica reports of an op is the response of the last entry that ran under its id |
| Dedup.StatusAgreesIff | crates/rift-cluster/src/raft/store.rs:1896-1914 | two replicas of one log answer an op's status alike if and only if both or neither report it by where each began its last batch |
| Dedup.StatusAgreesUntilExpiry | crates/rift-cluster/src/raft/store.rs:1896-1914 | they agree on an op's status unless its record has expired on both |
| Dedup.StatusCanDisagreeAfterExpiry | crates/rift-cluster/src/raft/store.rs:1896-1914 | and can disagree then: one log, two batchings, one op reported and not |
| Dedup.RowIsLastRun | crates/rift-cluster/src/raft/store.rs:3820-3892 | an op's dedup row is the response and expiry of the last entry that ran under its id |
| Dedup.AnsweredIffWithinWindow | crates/rift-cluster/src/raft/store.rs:3820-3892 | an entry is answered from the record if and only if an earlier entry ran under its id and the replicated clock has not reached that entry's expiry |
| Dedup.AtMostOnceInWindow | crates/rift-cluster/src/raft/store.rs:3820-3892 | inside the window of an entry that ran, every other entry with its id gets the same response and changes no table |
| Dedup.RecordedRan | crates/rift-cluster/src/raft/store.rs:3820-3892 | an id that occurs in the log has a first entry, and that entry ran |
| Dedup.SaturatedClockEndsDedup | crates/rift-cluster/src/raft/store.rs:3820-3892 | after an entry stamped with the largest time, no later entry is ever deduplicated |
| Revisions.EntrySteps | crates/rift-cluster/src/raft/store.rs:2395-2894 | an entry leaves each row as it was, removes it, or stamps it with the entry's own index; an entry that did not apply changes nothing |
| Revisions.RevisionNamesTheRecord | crates/rift-cluster/src/raft/store.rs:2395-2894 | two points of one log that show the same revision on a port hold the same record there |
| Revisions.ConditionedMovesOn | crates/rift-cluster/src/raft/store.rs:2287-2387 | a write conditioned on a revision found its target at that revision and left it newer, or gone |
| Revisions.AtMostOneConditionedWrite | crates/rift-cluster/src/raft/store.rs:2287-2387 | of all writes in a log conditioned on one revision of one record, at most one applies |
| Revisions.CreationsAreSeparatedByRemoval | crates/rift-cluster/src/raft/store.rs:2310-2330 | a create-only write of a port after another creation of it applies only if the port was removed in between |
| Revisions.EnabledNeverDisagrees | crates/rift-cluster/src/raft/store.rs:2395-2894 | in every log, a row's enabled flag is the one in its config |
| Outcomes.ConditionHoldsIff | crates/rift-cluster/src/raft/store.rs:2287-2387 | a precondition is met exactly when the row the op writes, or the route table, stands at the revision named, or the port is free; both conditions at once never, and a taken port is reported as such |
| Outcomes.AppliesIff | crates/rift-cluster/src/raft/store.rs:2287-2894 | an op applies exactly when it is admissible, its condition holds and it finds what it edits; if not, the first of the three decides the refusal |
| Outcomes.OutcomeIs | crates/rift-cluster/src/raft/store.rs:3820-3892 | and so in every log, for every entry that ran; a refused one changes no table, and either answers its own log index |
| Outcomes.OpWritesItsTable | crates/rift-cluster/src/raft/store.rs:2395-2894 | which op writes the signing key, the fleet name, the route table and its revision, with what, and that no other op does |
| Outcomes.ClockIsTheLatest | crates/rift-cluster/src/raft/store.rs:3820-3892 | the replicated clock is the latest issue time carried by the log so far |
| Outcomes.WindowIsADay | crates/rift-cluster/src/raft/store.rs:3876-3892 | a response answers for its id until a day past that clock, capped at the largest u64 |
| Recording.ClearReportsAChangeIff | crates/rift-cluster/src/control.rs:310-321 | a clear reports a change, and so moves the row's revision, if and only if it changes the stubs |
| Recording.StrippedHoldsNoRecording | crates/rift-cluster/src/control.rs:310-321 | what a clear leaves holds no recorded response |
| Recording.ClearIsIdempotentIff | crates/rift-cluster/src/control.rs:310-321 | a second clear removes nothing more if and only if no stub that names its proxy mixes recorded and other responses |
| Recording.SecondClearChangesIff | crates/rift-cluster/src/raft/store.rs:2851-2891 | in every log, of two clears of a port with its row untouched in between, the second still changes the row if and only if a stub was mixed before the first |
| Recording.ClearingTwiceCanChangeTwice | crates/rift-cluster/src/raft/store.rs:2851-2891 | for every valid put of a mixed stub, a log of that put and two clears in which the second clear changes the row |
| Recording.NoMarkerOutlivesItsImposter | crates/rift-cluster/src/raft/store.rs:2395-2894 | in every log, a recording marker stands only for a configured port |
| Recording.RecordingsAreSeparatedByForgetting | crates/rift-cluster/src/raft/store.rs:2716-2850 | of two once-only recordings of one signature that both changed the tables, the first one's marker was forgotten in between |
| Recording.NewestIsOfHighestRank | crates/rift-cluster/src/raft/store.rs:169-235 | the newest stub of a signature is one of the list's, of the highest rank, and exists exactly when some stub carries the signature |
| Recording.MarkerSurvivesPutIff | crates/rift-cluster/src/raft/store.rs:194-235 | a put keeps a recording's marker if and only if the newest stub recorded for it, if any, is kept and a restart leaves some stub of that signature |
| Recording.MoveForgetsNothing | crates/rift-cluster/src/raft/store.rs:188-235 | moving stubs about forgets no recording |
| Outcomes.MarkerAfter | crates/rift-cluster/src/raft/store.rs:2395-2894 | an applied op keeps a recording's marker exactly when it says: not a delete or a clear of its port, and a put or an edit only if the newest stub recorded for the signature stays; a kept marker keeps its response, and a new one appears only with a once-only recording of that signature |
| Outcomes.MarkerStep | crates/rift-cluster/src/raft/store.rs:2395-2894 | and so at every entry of every log |
| Outcomes.MarkerNeverChanges | crates/rift-cluster/src/raft/store.rs:2395-2894 | over any stretch of a log whose entries spare it, a marker stands with the response it was made with |
| Outcomes.NewestIs | crates/rift-cluster/src/raft/store.rs:188-217 | the newest stub of a signature is the first of the highest rank |
| Outcomes.RecordedIdIff | crates/rift-cluster/src/raft/store.rs:166-186 | an id names a recording of a signature and rank exactly when it is the prefix and a lower-case hex signature, alone for rank 0 or with `-r` and digits that fit a u64 |
| Placement.PlacesAhead | crates/rift-cluster/src/raft/store.rs:242-300 | a once-only recording puts its stub ahead of its anchor, or at the end without one: the first stub forwarding to the proxy at or after the hint, else the first at all; everything else keeps its order |
| Placement.MergesPast | crates/rift-cluster/src/raft/store.rs:242-300 | a merging recording appends its responses to the first stub with its predicates behind the anchor, or anywhere without one, and adds its stub at the end if there is none |
| Placement.RecordingMeansWhatItSays | crates/rift-cluster/src/raft/store.rs:2716-2850 | a recording is refused exactly when it is not already recorded and the port has no imposter; else it changes nothing, marks the signature, or places or merges the stub under its own or its derived id and stamps the row |
| Placement.CommittedRecordingMeansWhatItSays | crates/rift-cluster/src/raft/store.rs:2716-2850 | and so in every log |
| Recording.OpLeavesOthersAlone | crates/rift-cluster/src/raft/store.rs:2395-2894 | an op on one imposter leaves every other imposter's row, its markers and what they hold, and the fleet-wide records as they are |
| StubIds.OpKeepsUniqueIff | crates/rift-cluster/src/raft/store.rs:2716-2850 | an applied op keeps the stub ids of every imposter unique if and only if it does not record a stub under an id the imposter already holds |
| StubIds.IdsStayUniqueIff | crates/rift-cluster/src/control.rs:829-855 | in every log, the ids validation demands unique are unique at every point if and only if no entry so far recorded a stub under a taken id |
| StubIds.DerivedIdIsTakenIff | crates/rift-cluster/src/raft/store.rs:2780-2796 | the id derived for a recorded stub is taken exactly when, for a lower-case signature, the signature is held and a stub bears this very log index as its suffix, and for any other, a stub bears the base id |
| StubIds.RecordingCanRepeatAnId | crates/rift-cluster/src/raft/store.rs:2780-2796 | for every valid put of a stub with an id and every recording that brings the same id, a log of the two in which ids are unique and then are not |
| StubIds.DerivedIdCanRepeat | crates/rift-cluster/src/raft/store.rs:2780-2796 | for every valid put whose stubs bear a signature's base id and its `-r2`, and every recording of that signature without an id at log index 2, ids are unique and then are not |
| IfMatch.TokenRoundTrip | crates/rift-cluster-server/src/admin_front.rs:4630-4673 | every emitted token, quoted or padded or not, parses back to its revision for its own subject |
| IfMatch.TokenRefusedElsewhere | crates/rift-cluster-server/src/admin_front.rs:4630-4673 | and is refused for every other subject |
| IfMatch.BareRevisionFitsEverySubject | crates/rift-cluster-server/src/admin_front.rs:4630-4673 | a bare decimal revision parses for every subject |
| IfMatch.ParseIfMatchIff | crates/rift-cluster-server/src/admin_front.rs:4630-4673 | a header names a revision for a subject exactly when it is, trimmed and perhaps quoted, the decimal revision alone or the subject's own token of it |
| Routing.RoutingRoundTrip | crates/rift-cluster-server/src/admin_front.rs:555-685 | the printed method and path of every terminated route, for every port and every non-empty slash-free id, classify back to that route |
| Routing.ClassifyIff | crates/rift-cluster-server/src/admin_front.rs:555-685 | a method and path classify as a route if and only if the method is the route's own and the path is one of its spellings: segment by segment, a port a decimal that fits, a slash at the end and a query only where the route allows them |
| Routing.ClassifiedIsWellFormed | crates/rift-cluster-server/src/admin_front.rs:555-685 | classification answers only well-formed routes, and only for the route's own method |
| Routing.SpaceTargetsPartition | crates/rift-cluster-server/src/admin_front.rs:1680-1710 | the single-space read and the spaces listing never both match a path, and together they match exactly the two path shapes under `spaces` |
| Routing.StubPositionIsCanonical | crates/rift-cluster-server/src/admin_front.rs:5115-5119 | a stub position is accepted exactly when it is the canonical decimal of an existing position |
| Building.BuildsIff | crates/rift-cluster-server/src/admin_front.rs:4084-4465 | a route builds a mutation if and only if it is not one served elsewhere, its body decodes for it and what it addresses is there, for every body and view |
| Building.AnsweredWith | crates/rift-cluster-server/src/admin_front.rs:4084-4465 | and what it is answered when it does not: success for deleting an imposter that is not there, an internal error for a failed local read or a route served elsewhere, 404 for a stub, route or list that is not there, 400 for a body that does not decode, the index edit looking before it reads the body |
| Building.HandedAreBuilt | crates/rift-cluster-server/src/admin_front.rs:2821-2827 | the ops handed on are those built, in order; only a whole-set replace that does not reconcile marks its puts, each as a restart of its imposter |
| Building.SubjectIs | crates/rift-cluster-server/src/admin_front.rs:4593-4613 | what an `If-Match` on a built mutation is about: the imposter of the route's port, the route table, or nothing |
| Building.BuiltRenders | crates/rift-cluster-server/src/admin_front.rs:4084-4465 | the status a route answers, the path its answer is fetched back from, and whether its content must be admitted |
| Building.OrderIsTheBodys | crates/rift-cluster-server/src/admin_front.rs:4122-4154 | a whole-set replace answers in the body's own order, each port where it is first named |
| Building.BuiltRestarts | crates/rift-cluster-server/src/admin_front.rs:4084-4465 | which cycles a put restarts: all on a whole-list replace, the one stub's on an index replace, none otherwise |
| Building.BaseIsTheKeys | crates/rift-cluster-server/src/admin_front.rs:4675-4699 | a key that reads as a UUID is the base op id, two other keys give one base exactly when their trimmed text is the same, and without a key it is the one drawn |
| Mutation.BuildReplaceAll | crates/rift-cluster-server/src/admin_front.rs:4115-4175 | the whole-set replace: upserts in body order, then a delete per known port the body left out, a lone delete-all for an empty body, each port listed once at its first position, 400 for a config without a port |
| Mutation.BatchIndices | crates/rift-cluster-server/src/admin_front.rs:3171-3182 | each put of a batch is labelled with the number of puts before it, everything else with nothing |
| Mutation.BatchIndexIsBodyPosition | crates/rift-cluster-server/src/admin_front.rs:3171-3182 | and that number is the put's position in the request body |
| Mutation.MultiOpIsIdempotent | crates/rift-cluster-server/src/admin_front.rs:4084-4465 | for every route and body, a mutation has at least one op, and one of two or more is a whole-set replace of puts and deletes only |
| Mutation.PutAndDeleteRunTwice | crates/rift-cluster/src/raft/store.rs:2395-2894 | running a put or a delete again changes no config |
| Mutation.PreconditionsAreSingleOp | crates/rift-cluster-server/src/admin_front.rs:3149-3153 | a revision or absence precondition is only minted onto a single-op mutation, and a revision names that op's own target on every route but the clear of saved proxy responses |
| Mutation.DoorAndApplyAgreeIff | crates/rift-cluster-server/src/admin_front.rs:4583-4613 | over every route and body, the door admits an `If-Match` exactly where apply could condition the op and on the same record, except on the clear of saved proxy responses, where the door is wider, and on a whole-set replace that is one put, where it is narrower |
| Mutation.MultiOpHasNoSubject | crates/rift-cluster-server/src/admin_front.rs:4593-4613 | a mutation of several ops has no subject an `If-Match` could name |
| Mutation.ConditionedClearNeverApplies | crates/rift-cluster-server/src/admin_front.rs:4429-4441 | a conditioned clear passes the door whenever its token parses, and conflicts at apply in every state |
| Mutation.LonePutIsRefusedAtTheDoor | crates/rift-cluster-server/src/admin_front.rs:4593-4613 | every `If-Match` on a replace of one config with nothing to prune is a 400, though the same op so conditioned applies exactly at the revision named |
| Mutation.MultiOpIsNeverRefused | crates/rift-cluster-server/src/admin_front.rs:3137-3141 | no op of a pre-validated multi-op write is refused at apply, whatever the tables hold by then |
| Mutation.OpIdLaws | crates/rift-cluster-server/src/admin_front.rs:4700-4706 | the ids of one mutation are distinct; two attempts under one key give op `i` the same id exactly when both or neither are single-op |
| RouteEffects.RouteMeansWhatItSays | crates/rift-cluster-server/src/admin_front.rs:4084-4465 | for every route, body and op of it, what the applied op leaves is what the route says: the created config, each config of a whole-set replace in turn and then each known port the body left out, the lowest first, the stub added, replaced or removed with every other stub and field kept, the switch, the route table, a space's stubs gone, the recorded responses gone and the survivors in order, each with the new revision |
| RouteEffects.CommitsNothingIff | crates/rift-cluster-server/src/admin_front.rs:2869-2890 | a route commits nothing exactly when it only reads, its body does not decode or what it edits is not there, and more than one op only as a whole-set replace |
| RouteEffects.CommittedRouteMeansWhatItSays | crates/rift-cluster-server/src/admin_front.rs:4084-4465 | and so it is in every log, from however old a view the ops were built and wherever each applied |
| RouteEffects.ClearKeepsSurvivors | crates/rift-cluster/src/control.rs:310-321 | a clear leaves exactly the stubs that still have an answer or were never recorded, in order, each without exactly its recorded responses |
| RouteEffects.TableHoldsItsRoutes | crates/rift-cluster/src/raft/store.rs:2652-2672 | a stored route table is exactly the routes put, each under its id, the last listed of an id |
| RouteEffects.StoredConfigsStayValidIff | crates/rift-cluster/src/control.rs:829-855 | in every log, every stored config is one validation would admit, at every point, if and only if no entry so far recorded a stub under a taken id |
| RouteEffects.StoredConfigsStayReplicable | crates/rift-cluster/src/control.rs:828-852 | whatever was recorded, every stored config names its own non-zero port, a protocol the fleet speaks and nothing its flow store would refuse |
| StubEdits.EditRoutesCommitTheEdit | crates/rift-cluster-server/src/admin_front.rs:4289-4323 | the three read-then-write stub routes commit exactly the edited config, or answer 404 when the port or the index is not there |
| StubEdits.CommittedEditWrites | crates/rift-cluster-server/src/admin_front.rs:4289-4323 | a committed conditioned edit found the port at its revision and left the edit of what its node had read |
| StubEdits.NoLostUpdate | crates/rift-cluster-server/src/admin_front.rs:34-51 | in every log and however far the node lagged: the row edited is the row replaced if and only if it was read at the revision the write carries, and then what is left is that edit of the current config |
| StubEdits.StaleReadLosesAnUpdate | crates/rift-cluster-server/src/admin_front.rs:4529-4542 | a current revision over a stale read commits and drops the update in between, for every pair of configs that differ beyond their stubs |
| ReplaceAll.AfterPrefix | crates/rift-cluster-server/src/admin_front.rs:4115-4175 | the configs after any prefix of a batch replace, in closed form |
| ReplaceAll.TornRunIsASuperset | crates/rift-cluster-server/src/admin_front.rs:4117-4121 | wherever the run tears, no old port is gone until every body port has its final config, and no body port that was there or was written is missing |
| ReplaceAll.FullRunIsExact | crates/rift-cluster-server/src/admin_front.rs:4155-4168 | the whole run ends at exactly what the body asks for if and only if every configured port was in the body or known to the node |
| ReplaceAll.FreshRetryHeals | crates/rift-cluster-server/src/admin_front.rs:4117-4121 | a retry rebuilt from any torn state, run alone, ends at exactly what the body asks for |
| ReplaceAll.RestartsChangeNoConfig | crates/rift-cluster-server/src/admin_front.rs:2821-2827 | marking restarts changes no config the ops leave |
| Replays.RunInOrder | crates/rift-cluster-server/src/admin_front.rs:3286-3346 | with no other writer, the entries of a write submitted in order have exactly the effects of its ops, wherever the run stops |
| Replays.ReplaceInOrder | crates/rift-cluster-server/src/admin_front.rs:4115-4175 | the log of an in-order batch replace holds, at every prefix, the configs the closed form gives |
| Replays.Settled | crates/rift-cluster-server/src/admin_front.rs:4691-4706 | once an op of a write whose ops agree on each port is in the log, its port holds what the op leaves from then on |
| Replays.ReplaysAgree | crates/rift-cluster-server/src/admin_front.rs:4691-4706 | any two replays of one write whose ops agree on each port, in any order and with any repetition, end with the same configs, deduplicated or run again |
| Replays.ReplaysAgreeIff | crates/rift-cluster-server/src/admin_front.rs:4691-4706 | all replays of a write end with the same configs if and only if its ops agree on each port |
| Replays.ReplayedReplaceIsExact | crates/rift-cluster-server/src/admin_front.rs:4122-4168 | however the entries of a distinct-port batch replace reach the log, it ends at what the body asks for if and only if every configured port was known |
| Replays.FrontMintsOneWrite | crates/rift-cluster-server/src/admin_front.rs:3214-3221 | the requests minted for a valid body are such a write when the body's ports are distinct |
| Retries.SubmittedIsConsistentIff | crates/rift-cluster-server/src/admin_front.rs:4115-4175 | the ops of a batch replace agree on each port if and only if its body gives no port two configs |
| Retries.BothAttemptsAreExactIff | crates/rift-cluster-server/src/admin_front.rs:3210-3346 | the entries of two attempts at one body, in any order and repetition, end at what the body asks for if and only if every configured port is in the body or was known to one of the two builders |
| Retries.FreshRetryHeals | crates/rift-cluster-server/src/admin_front.rs:4117-4121 | a retry built at any point of the log ends at exactly what the body asks for, with any part of the first attempt replayed before it, between its ops, after it, repeated or never |
| Retries.FrontMintsAttempts | crates/rift-cluster-server/src/admin_front.rs:3214-3221 | what the front mints for one body under two different keys, from any two views, are two such attempts |
| Retries.FrontMintsAgain | crates/rift-cluster-server/src/admin_front.rs:3214-3221 | and so is what it mints twice under one key when the known ports are the same, whatever the stamps |
| Retries.DifferentKeysDoNotMeet | crates/rift-cluster-server/src/admin_front.rs:4675-4706 | writes under different keys, parsed, hashed or drawn, share no op id |
| Retries.LastRunWins | crates/rift-cluster-server/src/admin_front.rs:3210-3346 | among writes of different bodies, a port holds what the last entry to run on it leaves, replayed or not |
| Retries.KeyedRetryAnswersByPosition | crates/rift-cluster-server/src/admin_front.rs:4691-4706 | while the first attempt's record is live, op `i` of a keyed retry gets op `i`'s old response and changes nothing; when exactly one of the attempts is a single op the ids differ and the op runs |
| Retries.RunsIffNotLive | crates/rift-cluster-server/src/admin_front.rs:4691-4706 | an op of a keyed retry runs if and only if its id is not live, never used or expired |
| Retries.KeyedRetryLeaves | crates/rift-cluster-server/src/admin_front.rs:4691-4706 | what a keyed retry leaves at every prefix, in closed form: the ops whose ids are live, wherever they stand, change nothing and the rest have exactly their effects in order |
| Retries.KeyedRetryEndsAtIff | crates/rift-cluster-server/src/admin_front.rs:4700-4706 | whatever ports the body repeats, the retry ends at its body if and only if on every port the last op of it that is not live, or what was there if there is none, is what the body asks |
| Retries.KeyedReplaceIsExactIff | crates/rift-cluster-server/src/admin_front.rs:4700-4706 | for a body that gives no port two configs, if and only if every port already stands as the body asks or has an op of the retry whose id is not live |
| Retries.KeyedRetryRunsAfresh | crates/rift-cluster-server/src/admin_front.rs:4691-4706 | when exactly one of the two attempts is a single op, every op of the retry runs and it has exactly the effects of its ops |
| Retries.KeyedRetryCanLoseAPrune | crates/rift-cluster-server/src/admin_front.rs:4700-4706 | for every three valid configs on three ports, a log in which one body is submitted twice under one key, each time as the front builds it from the state then applied, every op of the retry is answered as applied and the port it was to prune stays |
| WritePath.Door | crates/rift-cluster-server/src/admin_front.rs:3136-3232 | what passes the door is validated op by op and small enough to replicate; what it hands on is `FrontDoor.DoorHandsOn` |
| FrontDoor.DoorPassesIff | crates/rift-cluster-server/src/admin_front.rs:3136-3232 | a request passes the door if and only if every op validates, an `If-Match`, if there is one, spells a revision of what the route is about, and every op is small enough to replicate |
| FrontDoor.DoorRefusesWith | crates/rift-cluster-server/src/admin_front.rs:3136-3232 | and otherwise is refused for the first of these that fails: the first invalid op with its reason, then a 400 for the header, then a 413 |
| FrontDoor.DoorHandsOn | crates/rift-cluster-server/src/admin_front.rs:3136-3232 | what passes is handed on op by op and in order, each under the id of its position and with its own stamp, carrying the revision the `If-Match` spells and none without one, and required absent exactly on a create without one |
| FrontDoor.IfMatchHeld | crates/rift-cluster-server/src/admin_front.rs:3149-3153 | in every log, a write handed on under an `If-Match` that took effect found its subject at the revision the header names |
| FrontDoor.CreateFoundThePortFree | crates/rift-cluster-server/src/admin_front.rs:3136-3232 | in every log, a create without an `If-Match` that took effect found its port free and left its config there |
| FrontDoor.StaleIfMatchConflicts | crates/rift-cluster-server/src/admin_front.rs:3149-3153 | in every state, a write whose `If-Match` spells another revision than its subject shows conflicts, whatever it asks for |
| WritePath.FrontNode.constructor | crates/rift-cluster/src/raft/store.rs:488-531 | a new node has nothing parked |
| WritePath.FrontNode.ParkIntent | crates/rift-cluster/src/raft/store.rs:1766-1793 | parking files the request under its id, overwriting, or changes nothing |
| WritePath.FrontNode.UnparkIntent | crates/rift-cluster/src/raft/store.rs:1799-1821 | unparking removes the id, or changes nothing |
| WritePath.FrontNode.ParkAll | crates/rift-cluster-server/src/admin_front.rs:3233-3243 | every request is parked in order up to the first that cannot be, and those before it stay parked |
| WritePath.FrontNode.SubmitAll | crates/rift-cluster-server/src/admin_front.rs:3245-3346 | the submit loop, synchronous or in the background, ends at the first reply that ends its mode and unparks exactly the answered requests up to there |
| WritePath.FrontNode.Run | crates/rift-cluster-server/src/admin_front.rs:3233-3346 | park everything, then answer 202 or submit; nothing is submitted unless everything is parked, and the replay loop is woken exactly when an op is left to it |
| WritePath.FrontNode.RunMutation | crates/rift-cluster-server/src/admin_front.rs:3120-3346 | a write refused at the door parks nothing; one that passes runs the requests `FrontDoor.DoorHandsOn` describes, and the replay loop is woken exactly when an op is left to it |
| WritePath.FrontNode.DrainParkedIntents | crates/rift-cluster-server/src/compose.rs:1651-1693 | a sweep ends at the first lost quorum and unparks exactly what was answered or can never be proposed before it |
| WritePath.StillParkedIff | crates/rift-cluster-server/src/admin_front.rs:3286-3346 | an op of a parked write is still parked when the front is done if and only if it was not answered, not unparked, or the front never came to it: an earlier op was not answered, or was refused while the client waits |
| WritePath.StillParkedAfterSweepIff | crates/rift-cluster-server/src/compose.rs:1651-1693 | an intent is still parked after a sweep if and only if it was neither answered nor impossible to propose, was not unparked, or an earlier one found no quorum |
| WritePath.SyncAnswerIs | crates/rift-cluster-server/src/admin_front.rs:3286-3350 | synchronous success is reported exactly when every op was answered and applied, with the id and response of the last; else the first op that was not decides: its refusal, or that it stays parked |
| WritePath.RunAnswers | crates/rift-cluster-server/src/admin_front.rs:3233-3346 | a client hears that a write cannot be accepted exactly when some op could not be parked, with those before it parked; asynchronously 202 with the base id and every op's id in order, all parked; else the synchronous answer |
| WritePath.SweepEmptiesIff | crates/rift-cluster-server/src/compose.rs:1651-1693 | a sweep empties the table exactly when every intent was answered or unreplicable and every unpark succeeded |
| Cluster.StepKeepsSound | crates/rift-cluster-server/src/admin_front.rs:3210-3346 | every step of every task, crash, commit and sweep keeps: accepted ops are parked, in the log, or inherited too large; ops parked so far stay so; what does not fit was inherited |
| Cluster.AcceptedIsParkedOrTerminal | crates/rift-cluster-server/src/admin_front.rs:3210-3346 | at every moment of every run, each op of an accepted write is parked on the node that accepted it or terminal in the log |
| Cluster.UpgradeKeepsAccepted | crates/rift-cluster-server/src/compose.rs:1680-1687 | over whatever tables and log an older binary left, the same of every op but one its node inherited in a request too large to replicate |
| Cluster.SmallIsAdmitted | crates/rift-cluster-server/src/admin_front.rs:2903-2930 | the two parkers that do not size an op can only mint one that fits |
| Cluster.EmptyTableOwesNothing | crates/rift-cluster-server/src/admin_front.rs:3210-3346 | a node with nothing parked has every op it ever accepted terminal, run once inside its window and answered alike every time, ops inherited too large aside |
| Cluster.FullDrain | crates/rift-cluster-server/src/compose.rs:1651-1693 | over every run from a reachable state in which a sweep of the whole table retires its intent each time it is its turn, answered or too large to send, whatever else the fleet does: every op accepted when it began is terminal at its end, and if its unparks succeed and the node parks nothing meanwhile, nothing is parked and every accepted op is terminal, ops inherited too large aside |
| Cluster.OnlyInheritedIsDropped | crates/rift-cluster-server/src/compose.rs:1680-1687 | in every run a sweep drops as too large only a request its node's table held before the run began |
| Cluster.OpIsUnknownIff | crates/rift-cluster-server/src/cluster_api.rs:430-452 | a replica answers 404 for any op if and only if it is not parked and every entry that ran under its id among those applied lies before the last batch and had expired when that batch began |
| Cluster.OpIsTerminalIff | crates/rift-cluster-server/src/cluster_api.rs:430-452 | it answers that the op has ended if and only if it reports it, with the response of the last entry that ran under its id, and pending if and only if the op is parked and not reported |
| Cluster.AcceptedOpIsUnknownOnlyWhen | crates/rift-cluster-server/src/cluster_api.rs:430-452 | with the record read at one moment of a run and the parked table at any later one, the accepting node answers 404 for an accepted op only when the op is terminal by the second read and at the first this node had not applied it or held an expired record |
| Cluster.AcceptedOpIsUnknownAtOnce | crates/rift-cluster-server/src/cluster_api.rs:430-452 | with both reads at one moment: only when it is terminal and not applied here yet or expired |
| ClusterRuns.SubmitAllIsARun | crates/rift-cluster-server/src/admin_front.rs:3286-3346 | the submit loop of a front node is a run of the protocol |
| ClusterRuns.FrontWriteIsARun | crates/rift-cluster-server/src/admin_front.rs:3233-3346 | so is a whole write: what it leaves parked some run leaves, and past parking its ops count as accepted |
| ClusterRuns.SweepIsARun | crates/rift-cluster-server/src/compose.rs:1651-1693 | so is a sweep, however its submits turn out |
| ClusterRuns.DrainCanFinish | crates/rift-cluster-server/src/compose.rs:1651-1693 | from any state, over any table whose intents fit, some run of a sweep empties the table |
| ClusterRuns.AcceptedOpCanBeUnknown | crates/rift-cluster-server/src/cluster_api.rs:430-452 | for every request, a run of two nodes in which one applies it before the other hears the answer, and that one, which accepted it, then answers 404 |
| ClusterRuns.TwoReadsCanMissALiveRecord | crates/rift-cluster-server/src/cluster_api.rs:430-452 | and a run between whose two reads the node applies the op and unparks it, so that the answer is 404 while the record is live |
| ClusterRuns.InheritedCanBeLostIff | crates/rift-cluster-server/src/compose.rs:1680-1687 | an op left parked by an older binary and not yet in the log can end neither parked nor in the log if and only if its request is too large to replicate |
| ClusterRuns.ReplayCanUndoALaterWrite | crates/rift-cluster-server/src/admin_front.rs:3210-3346 | for every two puts of one port, a run in which the first is given up and left parked, the second is committed and answered, and a replay then leaves the first's config |
| Session.KeyRevisionNamesTheRecord | crates/rift-cluster/src/raft/store.rs:2688-2704 | a key revision names one signing-key record, fleet-wide and forever |
| Session.StoredKeyIsUsable | crates/rift-cluster-server/src/session.rs:148-178 | applied state never holds a key that does not derive |
| Session.DerivesIff | crates/rift-cluster-server/src/session.rs:148-178 | a record signs exactly when its key is 64 hex digits, and then under the node's API key and the record's revision |
| Session.LoginsMintFromAppliedState | crates/rift-cluster-server/src/admin_front.rs:1497-1525 | in every run, each cookie is minted from a record the minting node had itself applied, under an API key it has run under |
| Session.ReadMints | crates/rift-cluster-server/src/admin_front.rs:1497-1525 | what a login does at each read: with an applied key it mints one cookie under that key, the node's API key and eight hours, and ends; without one it commits a first key, or ends if it already has |
| Session.FirstKeyIsCommittedOnce | crates/rift-cluster-server/src/admin_front.rs:1497-1525 | a login that committed a first key cannot commit another |
| Session.AcceptedIff | crates/rift-cluster-server/src/admin_front.rs:1223-1249 | a node accepts a minted cookie if and only if it has applied the very record the cookie came from, runs the API key it was signed under, and no more than eight hours have passed since it was minted |
| Session.RotationRevokesForGood | crates/rift-cluster-server/src/admin_front.rs:1402-1455 | a node that has applied a key at revision r refuses every cookie of an earlier revision in every continuation of the run |
| Session.RotationCutsEarlierCookies | crates/rift-cluster-server/src/admin_front.rs:1541-1608 | a node that has applied a rotation refuses every cookie minted from a record read before it |
| Session.KeyChangeRevokes | crates/rift-cluster-server/src/admin_front.rs:1215-1222 | a node that runs another API key than a cookie was signed under refuses it, in every continuation of the run in which it is not given the old key back |
| AcceptLoop.AdminFront.constructor | crates/rift-cluster-server/src/admin_front.rs:339-355 | the slot starts empty and both flags down, as the protocol starts |
| AcceptLoop.AdminFront.DropGuard | crates/rift-cluster-server/src/admin_front.rs:257-273 | the guard files the error only in an empty slot and with no shutdown requested, and always releases; it is the three guard steps of the protocol, from every state of it |
| AcceptLoop.AdminFront.TakeOutcome | crates/rift-cluster-server/src/admin_front.rs:226-236 | a released waiter empties the slot and reads an empty one as fine; it is the waiter's returning step |
| AcceptLoop.AdminFront.Shutdown | crates/rift-cluster-server/src/admin_front.rs:205-216 | a shutdown releases waiters without filing an error; it is the caller's four steps with the abort and the guard's steps among them |
| AcceptLoop.StepKeepsSound | crates/rift-cluster-server/src/admin_front.rs:205-273 | every interleaved action keeps: waiters are released exactly when the guard is done, a filed error means it saw no shutdown requested, and that error is in the slot or with exactly one waiter |
| AcceptLoop.NobodyReturnsEarly | crates/rift-cluster-server/src/admin_front.rs:226-236 | no waiter returns before the guard has published |
| AcceptLoop.ErrorIsDeliveredAtMostOnce | crates/rift-cluster-server/src/admin_front.rs:226-273 | the error reaches at most one waiter, and only if the guard found no shutdown requested |
| AcceptLoop.ErrorIsNotLost | crates/rift-cluster-server/src/admin_front.rs:226-273 | if it found none, some waiter has the error or the next to return gets it |
| AcceptLoop.RequestedShutdownIsQuiet | crates/rift-cluster-server/src/admin_front.rs:205-216 | a shutdown requested before the guard looked is never reported as a death |
| AcceptLoop.DroppedTaskReleasesWaiters | crates/rift-cluster-server/src/admin_front.rs:339-355 | an aborted task, polled or not, releases every waiter |
| Fleet.MergedMembers | crates/rift-cluster-server/src/fleet.rs:294-424 | one row per voter in voter order, each field by name what that voter answered if it answered in time, this node's own standing for itself, and nulls for an unreachable one |
| Fleet.RowMeans | crates/rift-cluster-server/src/cluster_api.rs:286-362 | a row's bind fields are the ports served, the ports that failed and whether the node could tell, all three or none from a peer, and a node's own body repeats its standing |
| Fleet.PeerRowEchoesOwnRow | crates/rift-cluster-server/src/fleet.rs:439-500 | a peer's row anywhere is the row the peer shows for itself |
| Fleet.MembersIgnoreArrivalOrder | crates/rift-cluster-server/src/fleet.rs:381-400 | rows and the timeout flag depend only on which peers answered what |
| Fleet.NotPartialIffEveryVoterContributed | crates/rift-cluster-server/src/fleet.rs:520-526 | a members answer is not partial if and only if every voter contributed its own report with a bind status in it |
| Fleet.SumDepths | crates/rift-cluster-server/src/fleet.rs:204-236 | adding depths as peers answer gives the capped sum, and the number of joined peers without a usable depth |
| Fleet.FleetHealth | crates/rift-cluster-server/src/fleet.rs:171-244 | no total without this node's own depth; otherwise the capped sum over the peers that joined, exact if and only if every other voter contributed a depth |
| Fleet.JoinedVotersIgnoreArrivalOrder | crates/rift-cluster-server/src/fleet.rs:204-236 | the set the sum runs over does not depend on arrival order |
| Fleet.DepthSumPermutes | crates/rift-cluster-server/src/fleet.rs:262-270 | a sum of depths over distinct peers does not depend on their order |
| Query.PercentDecode | crates/rift-cluster-server/src/admin_front.rs:791-810 | the decoding loop answers what the escape grammar spells, and nothing on a malformed escape or bytes that are not UTF-8 |
| Query.UnescapeIffSpells | crates/rift-cluster-server/src/admin_front.rs:762-810 | unescaping answers a text if and only if the raw bytes spell it (section 2.1 of RFC 3986) |
| Query.IsUtf8Iff | crates/rift-cluster-server/src/admin_front.rs:791-810 | bytes count as UTF-8 if and only if they are the encoding of some sequence of scalar values (section 3 of RFC 3629) |
| Query.DecodeFailsIff | crates/rift-cluster-server/src/admin_front.rs:762-810 | decoding fails if and only if the scan reaches a malformed escape or the spelled bytes are not UTF-8 |
| Query.QueryParamIff | crates/rift-cluster-server/src/admin_front.rs:697-706 | in any query, a parameter has a value exactly when some pair is `name=value` or the bare name, and it is the first such pair's |
| Query.QueryRoundTrip | crates/rift-cluster-server/src/admin_front.rs:697-706 | for every query written by an encoder that escapes at least `%` and `&`, lookup and decoding return the text of the first pair with the name, or nothing if there is none |
| Query.EncoderWritesWell | crates/rift-cluster-server/src/admin_front.rs:697-810 | every encoder that escapes at least `%` and `&` writes such pairs |
| Cookies.Kept | crates/rift-cluster-server/src/admin_front.rs:2489-2524 | what the strip keeps of each Cookie header, in order |
| Cookies.DroppedIff | crates/rift-cluster-server/src/admin_front.rs:2489-2524 | a header is dropped exactly when no reader can read it or it carries the token and no pair of another name |
| Cookies.StripPicks | crates/rift-cluster-server/src/admin_front.rs:2489-2524 | of several headers exactly those not dropped are forwarded, each as what is left of it, in their order |
| Cookies.HeaderMap.StripSessionCookie | crates/rift-cluster-server/src/admin_front.rs:2489-2524 | the Cookie headers become their sanitized forms, in order, and every other header stays |
| Cookies.RewrittenHoldsTheOtherPairs | crates/rift-cluster-server/src/admin_front.rs:2489-2524 | a rewritten header reads back as exactly the pieces that are pairs of another name, each as often as it occurs, in order (section 4.2.1 of RFC 6265) |
| Cookies.UncarriedIsUntouched | crates/rift-cluster-server/src/admin_front.rs:2489-2524 | a readable header that never carried the token is unchanged |
| Cookies.SanitizedIsClean | crates/rift-cluster-server/src/admin_front.rs:2489-2524 | re-splitting what is left of a header finds no session pair |
| Cookies.StripIsCleanAndIdempotent | crates/rift-cluster-server/src/admin_front.rs:2489-2524 | no remaining header carries the token, and stripping again changes nothing |
| Ordering.OrderImposters | crates/rift-cluster-server/src/admin_front.rs:4476-4502 | the listed ports' entries first in the body's order, the rest in the document's, raw texts unchanged; the first unreadable port is the error |
| Ordering.RenderIs | crates/rift-cluster-server/src/admin_front.rs:4476-4502 | the answer's text: brackets around the raw texts, a comma between any two neighbours, each raw text as it came |
| Ordering.SortReorders | crates/rift-cluster-server/src/admin_front.rs:4476-4502 | ranking and stable sorting is the bucket-by-bucket re-listing |
| Ordering.SortIsStable | crates/rift-cluster-server/src/admin_front.rs:4498-4499 | the sort permutes, orders by rank and keeps each rank's own order |
| Ordering.ReorderedIsAPermutation | crates/rift-cluster-server/src/admin_front.rs:4476-4502 | the result is a permutation of the document's entries |
| Ordering.OrderIsDistinct | crates/rift-cluster-server/src/admin_front.rs:4122-4154 | every order the front builds lists each of the body's ports exactly once |
| SplitMix.MixIsABijection | crates/rift-cluster-spec/src/digest.rs:64-70 | the mixing step is a bijection on 64-bit words, with its inverse |
| SplitMix.StateClosedForm | crates/rift-cluster-spec/src/digest.rs:64-65 | the state after n draws is seed plus n increments, modulo 2^64 |
| SplitMix.DrawsRepeatExactlyEvery64Bits | crates/rift-cluster-spec/src/digest.rs:64-70 | two draws from one seed are equal if and only if their numbers agree modulo 2^64 |
| SplitMix.WindowIsAPermutation | crates/rift-cluster-spec/src/digest.rs:64-70 | in any 2^64 consecutive draws from any seed, every word is drawn exactly once |
| SplitMix.Rng.constructor | crates/rift-cluster-spec/src/digest.rs:49-61 | a generator starts at its seed with nothing drawn |
| SplitMix.Rng.NextU64 | crates/rift-cluster-spec/src/digest.rs:64-70 | a draw answers the next word of the sequence and advances by one |
| SplitMix.Rng.Below | crates/rift-cluster-spec/src/digest.rs:73-78 | a draw below n is the next word modulo n, and zero without drawing when n is zero |
| DesignCheck.LookAhead | scripts/design-check.py:306-310 | a heading's section ends before the next heading that is not deeper, or with the document |
| DesignCheck.RfcSections | scripts/design-check.py:303-311 | each section number maps to the range of the last heading that carries it |
| DesignCheck.InRangeIffNothingIntervenes | scripts/design-check.py:303-311 | a line is in a heading's range if and only if it is at or below it and no heading of the same or a higher level stands in between |
| DesignCheck.SectionsAreLaminar | scripts/design-check.py:303-311 | of two sections, the later starts after the earlier ends or lies inside it and is deeper |
| DesignCheck.CitationKeptIff | scripts/design-check.py:792-803 | a citation of a known section with known changes is kept exactly when a changed line lies in the section; every other one is kept |
| DesignCheck.Flush | scripts/design-check.py:603-607 | a commit is filed under every watched file it lists, unless it lists the document |
| DesignCheck.ShortShaIff | scripts/design-check.py:611-611 | a line counts as a sha exactly when it is seven to twelve lower-case hex digits |
| DesignCheck.ChangedWithoutDoc | scripts/design-check.py:591-617 | each watched file gets exactly the commits the scan finds to list it and not the document, in log order, and no file gets an empty list |
| DesignCheck.CommitsOfPrinted | scripts/design-check.py:608-616 | reading a printed log finds its commits, when no file name looks like a short sha |
| DesignCheck.PrintedLogIsExact | scripts/design-check.py:591-617 | on such a log, a file's suspects are exactly the commits that list it and not the document, in log order |

## Left out

- The injection gate, script resolution, script validation, lookup checks and engine admission between the precondition and parking: calls into upstream code.
- Rendering responses, fetching them back from the local engine, write barriers and error texts: transport and formatting.
- Driving the local engine after an apply, snapshots, and stored rows that no longer parse: outside the replicated values modelled here.
- Raft itself: a commit appends a submitted request to one log; elections, terms and log repair do not appear.
- JSON: a body arrives decoded or as undecodable, a document as its entries, a config as the fields this layer reads.
- Outcomes.ValidatesIff: the wording of a refusal as invalid is not stated, but for a route table, whose own complaint is passed on.
- WritePath.Door: a clock, a serializer and a UUID parser supply each op's stamp, size and base id as inputs.
- Cluster: the bound on a request path comes from the HTTP library and the bound on an escaped character from JSON; both are constants here.
- Retries.DifferentKeysDoNotMeet: v5 hashing is ideal, and a position's eight bytes are taken never to be the text of a key, which holds for every position below 2^56.
- ClusterRuns.FrontWriteIsARun: builds the run for a write that no other commit interrupts; other interleavings are runs of the protocol directly.
- StubEdits.NoLostUpdate: a stale read can also leave the right config by coincidence, so reading the row at the carried revision is sufficient but not necessary for that.
- ClusterRuns.SweepIsARun: builds the run for a sweep that no other step of its node interrupts; other interleavings are runs of the protocol directly.
- Session: minting and verifying are ideal; token encoding, HMAC and constant-time comparison are not modelled.
- AcceptLoop: lock poisoning and the connections the loop serves.
- Fleet: log lines and the fields of the health and members bodies that no row repeats.
- DesignCheck: heading and sha patterns are matched before the model starts, lines are stripped of Rust's whitespace set, and the rest of the report is not modelled.
- SpecDigest's hex form and the seeding hash of the generator: the digest is an opaque string to everything modelled here.
- TLS and TCP handling, flow stores, the ring, the console, probes and the command line: none of them writes the replicated tables or the parked table.
