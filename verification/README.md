# KubeArchive in Dafny

A Dafny model of the parts of KubeArchive that keep state or branch the most, with their properties
proved. `dafny verify dfyconfig.toml` checks all of it.

## What is modelled

**The documentation's search engine** (`docs/ui/lunr.js`). Token sets are nodes of an arena: an id, a final
flag, labelled edges. `Automata` says what a node accepts, both for index token sets and for query token sets,
in which a `*` edge stands for any character. `Builder` is the incremental builder behind `fromArray`: a
sorted list is to give a minimal automaton of exactly its words. The builder recognises equal nodes by a
string that runs labels and decimal ids together; `NodeKeys` shows that over a given alphabet this string
tells all nodes apart exactly when no digit comes after another label, or among ids of equally many digits for
any alphabet. Under either condition the builder is exact. `Misbuilt` shows that the first is necessary: over
any other alphabet, and wherever the ids start, some list of three words is built wrongly. `LoopFree` shows
that no list, built rightly or not, gives a loop. `Glob` and `Fuzzy` are the two kinds of query automata, and
`EditDistance` says what the fuzzy one means in terms of single edits: at least everything that insertions,
deletions and substitutions reach, at most what they and swaps reach. The comment at docs/ui/lunr.js:1229-1230
counts a swap as one edit like the others, which is exact up to distance one and at no distance beyond.
`Intersect` is the product of an index with a query that may run in loops, `ToArray` lists the words of the
result, and `IndexQuery` puts them together: which documents a boolean query returns, and when it ends in a
TypeError instead, whatever the token set lists and whatever fields the clauses name. `Vector` is the sparse
vector.

**The keep-last-when vacuum** (`cmd/vacuum/publisher.go`). Several buckets overlap and share a reference
count, and delete events leave while the listing is read. `VacuumConservation` needs nothing of the
comparison; `VacuumRanking` needs it to be a weak order. By creation time it always is; by a field it is one
when every resource has the field or at most one has; in any other case there are times and values for which
it runs in a circle. `Rules` is the merge of cluster and namespace rules.

**Label selectors** (`pkg/models/labels.go`, `pkg/database/sql/postgresql.go`). `LabelFilters` sorts
requirements into six filters, `LabelSql` gives the label tables and the meaning of the EXISTS and NOT EXISTS
conditions, `LabelCompiler` resolves ids and emits the conditions. Two inputs on which the service does not do
what the selector says are stated with the exact condition: a repeated map-valued operator and key, of which
the last one wins (`RepeatedRequirements`: no harm exactly when what survives on a key implies what is lost on
it, or cannot be met), and `a=x,a!=y`, which matches nothing because one map holds both values.
`LabelCompiler.CompiledExactIff` has the condition for both together, which can be read off the selector.
`notin` asks for the key to be present, as the source says it should.

**Pagination** (`cmd/api`, `pkg/database/sql`). `Dates` has the canonical UTC dates of RFC 3339 and their
order, `Tokens` the request parameters, `Pagination` the list request and a client that follows the tokens.

**The `get` command** (`pkg/cmd/get.go`). `Merge` is the bounded sorted insert that `Run` calls twice. What
identifies an entry is its creation time and name: two objects of different namespaces created in one second
under one name become one entry, and `MergeSpec.ShownKeysShowObjectsIff` says exactly when that happens.

**The sink** (`cmd/sink`, `pkg/database/sql/postgresql.go`). `Archive` is the guarded upsert and
`ArrivalOrder` says when the order of arrival matters: apiVersion and kind are those of the first write, the
rest that of the newest, and among equally new ones of the first. `Sink` is a state machine of handlers that
interleave and fail anywhere, `SinkController` the handler itself. The write that follows a cluster delete
carries the update time that was written before it, so the guard refuses it in every reachable state: the
deletion time is not stored.

**Owned Pods** (`pkg/database/sql/reader.go`). The search keeps no visited set; `Ownership` shows that it ends
exactly when no chain of owners runs in a circle, and which Pods it finds.

**Tailing logs** (`cmd/api/logging/logging.go`). The API reference promises that `tailLines=N` returns exactly
N lines. The reading loop counts blank lines that are dropped later, and from a backend that lists the oldest
entries first it stops too early. `TailLogs` follows the code and says when the promise is kept.

Calls into other systems are parameters: the truth of a CEL expression, the parse of a log line, the square
root, the dates that are not in canonical form, the way each database or cluster call ends.

## Model

| member | source | states |
|---|---|---|
| NodeKeys.ToString | docs/ui/lunr.js:1465-1490 | the string of a node: final flag, then each label in order followed by the id it leads to |
| NodeKeys.KeyReads | docs/ui/lunr.js:1465-1490 | the string is 1 or 0 for the flag, and the greatest label with its id comes last |
| Decimal.TenDigits | docs/ui/lunr.js:1478-1489 | ids are written with the digits 0 to 9 |
| NodeKeys.ChunksInjective | docs/ui/lunr.js:1478-1489 | without a digit after another label, equal edge strings mean equal edges |
| NodeKeys.LateDigitCollides | docs/ui/lunr.js:1478-1489 | for any digit label after another label, two different nodes with one string |
| NodeKeys.KeysDistinguishIff | docs/ui/lunr.js:1465-1490 | over an alphabet, strings tell all nodes apart if and only if no digit comes after another label |
| NodeKeys.KeysTellApart | docs/ui/lunr.js:1465-1490 | without a late digit, or with ids of equally many digits, one string means one node |
| Automata.Arena.SetEdge | docs/ui/lunr.js:1175-1179 | an edge is set in place and no other node changes |
| BuilderSpec.MinimizeGood | docs/ui/lunr.js:1615-1632 | replacing a finished node by its registered twin, down to any depth, keeps the accepted words, the unfinished path and the registry |
| BuilderSpec.InsertGood | docs/ui/lunr.js:1571-1609 | one insertion in order adds that word to the accepted words and nothing else |
| BuilderSpec.InsertOwn | docs/ui/lunr.js:1571-1609 | an insertion touches only nodes that this builder made |
| Builder.SameLanguageSameNode | docs/ui/lunr.js:1615-1632 | two registered nodes with the same right language are one node |
| Builder.RootIsAlone | docs/ui/lunr.js:1564-1569 | no node below the root has the root's language |
| Builder.FinishedIsMinimal | docs/ui/lunr.js:1611-1632 | after finish, no two reachable nodes have the same right language |
| Builder.FinishedIsBounded | docs/ui/lunr.js:1611-1632 | after finish, the automaton has no loops: paths are no longer than the longest word |
| Builder.Builder.Minimize | docs/ui/lunr.js:1615-1632 | the loop over the unchecked nodes performs the specified steps in place |
| Builder.Builder.Insert | docs/ui/lunr.js:1571-1609 | refuses exactly the words before the previous one, leaving the state as it was; otherwise performs the specified insertion |
| Builder.Builder.Finish | docs/ui/lunr.js:1611-1613 | minimizes everything that is left |
| Builder.FromArray | docs/ui/lunr.js:1199-1208 | fails exactly on a list that is out of order; otherwise the root is that of the specified insertions and leads into no loop, and when no digit comes after another letter or the new ids have equally many digits it accepts exactly the listed words, minimally |
| Builder.BuiltExactly | docs/ui/lunr.js:1199-1208 | the specified insertions give a minimal automaton of exactly the listed words whenever node strings tell nodes apart |
| Builder.BuiltIsLoopFree | docs/ui/lunr.js:1199-1208 | any sorted list gives a token set without loops, also when nodes are taken for others |
| LoopFree.InsertLayered | docs/ui/lunr.js:1571-1632 | an insertion keeps the paths from registered nodes bounded, whatever the node strings do |
| Misbuilt.LateDigitMisbuilds | docs/ui/lunr.js:1199-1208 | for every letter, later digit and starting id, a sorted list of three words over the two of which the third is lost |
| Misbuilt.BuilderExactIff | docs/ui/lunr.js:1199-1208 | wherever the ids start, all sorted lists over an alphabet are built exactly if and only if no digit of it comes after another letter |
| Glob.ChainLanguage | docs/ui/lunr.js:1378-1408 | the nodes added for the rest of a term accept exactly what that rest matches, also after a star |
| Glob.PlainMatches | docs/ui/lunr.js:1378-1408 | a term without a star matches itself only |
| Glob.StarMatches | docs/ui/lunr.js:1378-1408 | up to its first star a term matches itself, then any run of characters, then what the rest matches |
| Glob.FromString | docs/ui/lunr.js:1378-1408 | the token set of a term accepts exactly the words that match it, nothing for the empty term |
| Fuzzy.FromFuzzyString | docs/ui/lunr.js:1242-1366 | the loop ends and the token set accepts exactly the words within the edit distance, taken left to right, for every term and distance |
| EditDistance.AcceptedIsReachable | docs/ui/lunr.js:1242-1366 | a word within the distance can be made by that many single edits, adjacent swaps included |
| EditDistance.ReachableIsAccepted | docs/ui/lunr.js:1242-1366 | every word that insertions, deletions and substitutions can make, in any order, is within the distance |
| EditDistance.SwapsAreExactIff | docs/ui/lunr.js:1229-1230 | the distance counts a swap as one edit like the others, for all words and all terms without a star, if and only if it is at most one |
| EditDistance.LongWordIsMissed | docs/ui/lunr.js:1343-1362 | for every distance from two on, a word that the token set rejects although a deletion, a swap and substitutions reach it |
| Intersect.Combine | docs/ui/lunr.js:1520-1557 | one pair of edges: the shared output node is found or made, final when both sides are, and the invariant of the stack loop holds again |
| Intersect.Complete | docs/ui/lunr.js:1502-1563 | once all frames are processed, a word that both sides accept is accepted by the output |
| Intersect.Intersect | docs/ui/lunr.js:1502-1563 | for an index without loops and any query, loops included, the stack loop ends and the output accepts exactly the non-empty words that both accept |
| ToArray.ToArray | docs/ui/lunr.js:1420-1453 | lists exactly the accepted words, each once |
| LunrSet.Set.Intersect | docs/ui/lunr.js:265-294 | membership in the intersection, the complete and the empty set included |
| LunrSet.Set.Union | docs/ui/lunr.js:303-313 | membership in the union, the complete and the empty set included |
| LunrSet.FieldRefRoundTrip | docs/ui/lunr.js:161-180 | a field reference is read back if and only if the field name has no joiner |
| IndexQuery.Expand | docs/ui/lunr.js:1828-1829 | the expanded terms of a clause are exactly the index terms that match it, each once |
| IndexQuery.ClauseStep | docs/ui/lunr.js:1791-1957 | one clause updates the required, prohibited and matching sets as its meaning asks, or throws exactly in the case described |
| IndexQuery.Query | docs/ui/lunr.js:1765-2047 | returns each selected document once and no other, or ends in a TypeError exactly when a term is reached that stands for a word without posting or is looked up in a missing field, or a required clause without terms comes first on one of its fields; excluding by the posting's own number is no error |
| IndexQuery.RequiredStopWordThrows | docs/ui/lunr.js:1950-1955 | a required word that the pipeline drops makes the query a TypeError, whatever comes before and after, unless earlier required clauses name all its fields |
| IndexQuery.BuildIndex | docs/ui/lunr.js:2438-2464 | the index over any sorted terms can be queried; it lists exactly the terms of the inverted index when node strings tell nodes apart |
| Vector.PlaceIsUnique | docs/ui/lunr.js:773-814 | an ordered vector has one insertion point for an index |
| Vector.Vector.PositionForIndex | docs/ui/lunr.js:773-814 | the bisection ends at the insertion point |
| Vector.SplicedContents | docs/ui/lunr.js:839-848 | splicing a pair in at its place keeps the order and adds exactly that entry |
| Vector.Vector.Upsert | docs/ui/lunr.js:839-848 | inserts the value or combines it with the old one, keeps the indexes increasing, drops the cached magnitude |
| Vector.Vector.Insert | docs/ui/lunr.js:825-829 | fails exactly on an index that is there, changing no entry |
| Vector.Vector.Magnitude | docs/ui/lunr.js:855-867 | the cached value is always the norm of the current elements |
| Vector.MergedIsDot | docs/ui/lunr.js:875-896 | walking both vectors at once adds up the products at the shared indexes |
| Vector.Vector.Dot | docs/ui/lunr.js:875-896 | the sum over the shared indexes of the two maps |
| Vector.DotProductIsSymmetric | docs/ui/lunr.js:875-896 | the dot product is the same from either side |
| Vector.DotWithUnit | docs/ui/lunr.js:875-896 | the product with a unit vector is the value at its index, zero when there is none |
| Vector.SquaresAreDot | docs/ui/lunr.js:855-867 | the magnitude is the root of the product of the vector with itself |
| Vacuum.SortResources | cmd/vacuum/publisher.go:289-315 | the last slot moves to its place in the array, the others keep their order |
| Vacuum.CreateKeepers | cmd/vacuum/publisher.go:258-271 | one bucket of count plus one nil slots for each rule, all different |
| Vacuum.KeepIn | cmd/vacuum/publisher.go:140-158 | one keeper takes one item: bucket, reference counts and events afterwards |
| Vacuum.SendByAPIVersionKind | cmd/vacuum/publisher.go:128-180 | the loops over items and keepers refine the specified run in buckets and events; every listed item is settled; where creation time or a field decides, each bucket holds as many matches as it has room for, the newest or greatest first, and no match left out is newer or greater than one held |
| VacuumSpec.OfferChanges | cmd/vacuum/publisher.go:140-158 | whatever the comparison says, an offer changes only the offered item and the one that falls out |
| VacuumConservation.KeepCounts | cmd/vacuum/publisher.go:144-156 | after one keeper, the reference count of every UID is the number of buckets that hold it and an absent key means zero |
| VacuumConservation.RunConserves | cmd/vacuum/publisher.go:131-180 | over any list of distinct UIDs and any rules: a matched item is held without a delete event or held nowhere with exactly one, an unmatched item never gets one, counts are exact |
| VacuumRanking.FieldOkIsWeakOrder | cmd/vacuum/publisher.go:317-347 | the comparison is a weak order when all items have the sort field or at most one has |
| VacuumRanking.MixedFieldsCycle | cmd/vacuum/publisher.go:335-346 | for any two items with the field and one without, creation times and values with which they are ranked in a circle |
| VacuumRanking.AlwaysWeakOrderIff | cmd/vacuum/publisher.go:317-347 | the comparison ranks resources consistently for all times and values if and only if at most one has the field or all have |
| VacuumRanking.RankedIsSorted | cmd/vacuum/publisher.go:289-315 | the reference order is a sorted permutation with ties to the later-listed item |
| VacuumRanking.RunKeepsTheTop | cmd/vacuum/publisher.go:134-165 | after every item each bucket is the first count matches so far, padded with nil, the extra slot nil |
| VacuumRanking.BucketShows | cmd/vacuum/publisher.go:317-347 | said of times and field values alone: a resource in the bucket is as new, or its field as great, as any later in it or left out, and of equals the later-listed comes first |
| Rules.UnifyRules | cmd/vacuum/publisher.go:219-256 | cluster rules stay in place; the last one of a name gets the least of its count and all overrides of that name, the others stay as they are; appended are, in order, exactly the unnamed namespace rules whose predicate neither a cluster rule nor an earlier unnamed one has |
| Rules.UnifiedCovers | cmd/vacuum/publisher.go:219-256 | distinct predicate texts stay distinct and every predicate of either level is covered |
| LabelFilters.NewLabelFilters | pkg/models/labels.go:23-64 | an error exactly for an operator other than the six supported ones; otherwise the filters hold the surviving requirements and no others |
| LabelFilters.FiltersMeanSurvivors | pkg/models/labels.go:23-64 | for every label set the filters hold if and only if the surviving requirements do |
| RepeatedRequirements.CoveredRequirementsExact | pkg/models/labels.go:23-64 | when every lost requirement is implied by the one that took its place, the filters mean the whole selector |
| RepeatedRequirements.DistinctRequirementsExact | pkg/models/labels.go:23-64 | without a repeated operator and key the filters mean the whole selector |
| RepeatedRequirements.SelectorExactIff | pkg/models/labels.go:23-64 | for any selector, the filters mean all of it for labels with one value per key if and only if on every key the survivors leave no state in which a lost requirement fails, or on some key no state at all; finitely many states decide |
| RepeatedRequirements.SatisfiableIff | pkg/models/labels.go:23-64 | finitely many states of each key decide whether some labels satisfy a whole selector |
| RepeatedRequirements.RepeatedRequirementExactIff | pkg/models/labels.go:23-64 | when each key is used with one operator, the filters mean the whole selector for all label sets if and only if every lost requirement is covered by the one that took its place |
| LabelSql.KeyCountFound | pkg/database/sql/postgresql.go:306-318 | the COUNT(DISTINCT key) condition holds exactly when every key is among the resource's labels |
| LabelCompiler.ResolveKeyIDs | pkg/database/sql/postgresql.go:101-132 | the ids of exactly the asked keys that the database has |
| LabelCompiler.ResolveLabels | pkg/database/sql/postgresql.go:134-211 | the ids of exactly the asked pairs that the database has, under key=value names |
| LabelCompiler.ApplyNotInFilter | pkg/database/sql/postgresql.go:299-337 | the keys are required to be present and none of the forbidden pairs may be |
| LabelCompiler.ApplyLabelFilters | pkg/database/sql/postgresql.go:342-464 | for every label database and filters the conditions hold of a resource exactly when its labels satisfy the filters and no key is equal and unequal to different values; no IN list is empty |
| LabelCompiler.CompiledExactIff | pkg/database/sql/postgresql.go:342-464 | for any selector, the conditions mean all of it for labels with one value per key if and only if it is conflicting and no labels satisfy it, or not conflicting and its lost requirements are harmless |
| LabelCompiler.CompileSelector | pkg/database/sql/postgresql.go:342-464 | from any selector to conditions: exactly the resources that satisfy all surviving requirements, none when these conflict; the whole selector where that condition holds or every lost requirement is covered |
| LabelCompiler.ConflictLosesMatches | pkg/database/sql/postgresql.go:366-369 | a conflicting selector that a label set satisfies |
| MergeSpec.CmpResourceComparesKeys | pkg/cmd/get.go:278-291 | the comparison orders by time and name, latest and greatest first, and is zero exactly on equal time and name |
| MergeSpec.TopIsPrefix | pkg/cmd/get.go:225-275 | the state the merge keeps determines the shown keys: the first limit keys of the ranked, deduplicated union |
| MergeSpec.ShownKeysShowObjectsIff | pkg/cmd/get.go:278-291 | for any limit, every object listed under a shown time and name is shown itself if and only if no two share one |
| MergeSpec.EveryObjectShownIff | pkg/cmd/get.go:278-291 | with room for all, every object is shown if and only if no two share a time and a name |
| MergeSpec.TwinsShareAnEntry | pkg/cmd/get.go:278-291 | two objects of one time and name: only the first is shown |
| MergeSteps.FlagStep | pkg/cmd/get.go:240-247 | a key that is found only gains the flag of its source |
| MergeSteps.PlaceStep | pkg/cmd/get.go:255-266 | a new key is placed; what falls out is lost to exactly the sources that listed it; nothing dropped returns |
| MergeSteps.SkipStep | pkg/cmd/get.go:267-271 | a resource after a full list is lost to its own source only |
| Merge.BinarySearch | pkg/cmd/get.go:238 | the place of a resource among the entries |
| Merge.ShiftIn | pkg/cmd/get.go:255-265 | the in-place shift and store, the last entry falling out of a full slice |
| Merge.InsertSortedResourcesOptimized | pkg/cmd/get.go:225-275 | one merge call keeps the top of everything seen, and each trim flag says exactly whether an entry of that source was lost in this call |
| Merge.Run | pkg/cmd/get.go:320-457 | what is shown is ordered by time and name, latest and greatest first; a listed object is left out only when the limit is full of earlier ones or its time and name are shown; availability flags and both trim flags exact |
| Dates.ReserialisedIsSame | cmd/api/pagination/pagination.go:95-106 | parsing and formatting a canonical date gives the same text |
| Dates.CanonicalIff | cmd/api/pagination/pagination.go:95-106 | which texts are canonical dates: the lengths of the months, the leap years, and the ranges of the clock |
| Dates.CanonicalIsFormatted | cmd/api/pagination/pagination.go:95-106 | every canonical date is the formatted form of a valid date |
| Dates.TextOrderIsTimeOrder | pkg/database/sql/postgresql.go:64-69 | for canonical dates the order of the texts is the order of the instants |
| Tokens.ParseIntOfItoa | cmd/api/pagination/pagination.go:40-49 | a printed id is read back exactly when it is an int64 |
| Tokens.ParseIntForms | cmd/api/pagination/pagination.go:60-65 | digits with an optional sign are parsed exactly when they name an int64, to that number |
| Tokens.ParsedForm | cmd/api/pagination/pagination.go:60-65 | nothing else is parsed |
| Tokens.QuotedDate | cmd/api/pagination/pagination.go:40-49 | a date in JSON quotes gives the same token as without them: the id, a space, the date |
| Tokens.Middleware | cmd/api/pagination/pagination.go:54-116 | a limit is refused exactly when it is given and not a number from 1 to 1000, then a token exactly when it is not one int64 id, one space and one date; the limit passed on is the given one or 100 |
| Tokens.TokenRoundTrip | cmd/api/pagination/pagination.go:40-115 | a token made from an int64 id and a canonical date is never empty and comes back as that id and that date |
| Pagination.OrderedIsSorted | pkg/database/sql/postgresql.go:468-470 | rows with distinct ids have one order, by date and id descending |
| Pagination.RestBelowCursor | pkg/database/sql/postgresql.go:64-69 | the query below the n-th row of the full answer gives the rest of the full answer |
| Pagination.StreamList | cmd/api/routers/routers.go:124-182 | at most limit rows are written, a token exactly when one more was read, and the response text letter by letter, also when empty |
| Pagination.GetResources | cmd/api/routers/routers.go:36-183 | each parameter error exactly on its condition; otherwise the first limit rows, 100 without a limit parameter, of the matching ones below the id and date that the token means, newest first, with an empty token exactly when none remains |
| Pagination.NextPage | cmd/api/routers/routers.go:178-181 | the request with the token of a page continues exactly after that page, with any limit or none given |
| Pagination.FollowTokens | cmd/api/routers/routers.go:118-183 | from the first page to the empty token: every matching row once, newest first by instant, in full pages, for any limits given or omitted |
| Archive.GetLastUpdateTs | cmd/sink/k8s/objects.go:14-23 | the greatest managed-fields time that is present, or the zero time |
| Archive.ShownRow | pkg/database/sql/postgresql.go:476-499 | column by column, what an inserted row takes from the object, its newest managed time and the data |
| Archive.StoredTimeNeverDecreases | pkg/database/sql/postgresql.go:489-496 | no write lowers a stored time or removes a row |
| Archive.StoredIsNewest | pkg/database/sql/postgresql.go:476-499 | after any writes the columns of a row are those of the first-arrived write among those with the greatest time, its apiVersion and kind those of the first arrival |
| ArrivalOrder.ArrivalOrderIsIrrelevant | pkg/database/sql/postgresql.go:476-499 | when the newest writes of an object agree, any order of arrival with any redeliveries stores the same, up to apiVersion and kind; these too when all its writes have one apiVersion and kind |
| ArrivalOrder.ContentIsOrderFreeIff | pkg/database/sql/postgresql.go:476-499 | every order of any writes stores the same content, apiVersion and kind aside, if and only if the newest writes agree on it |
| ArrivalOrder.RowIsOrderFreeIff | pkg/database/sql/postgresql.go:476-499 | every order stores the same row if and only if, besides, all writes of the object have one apiVersion and kind |
| ArrivalOrder.EqualTimesDependOnOrder | pkg/database/sql/postgresql.go:493-496 | two writes of equal time: the order matters exactly when their rows differ |
| Sink.StepKeepsSafe | cmd/sink/routers/routers.go:119-335 | every step of every handler keeps the invariant |
| Sink.RunIsSafe | cmd/sink/routers/routers.go:119-335 | in every run the table is the fold of the committed writes, an accepted event is archived, and an issued delete is covered |
| Sink.DeletedIsArchivedForever | cmd/sink/routers/routers.go:218-277 | a cluster delete is issued only with a row at least as new as the event, and the row stays so for the rest of the run |
| Sink.DeletesAreAsked | cmd/sink/routers/routers.go:196-277 | in every run, each cluster delete is of an object received in an event whose type ends in .delete-when or .keep-last-when-delete |
| Sink.SecondWriteChangesNothing | cmd/sink/routers/routers.go:308-317 | in every reachable state the write after the delete changes nothing |
| Sink.RowsShowReceivedEvents | cmd/sink/routers/routers.go:306-317 | every row is an initial one or shows a received event column by column, so no row shows the deletion time set after the delete |
| SinkController.Controller.WriteResource | pkg/database/sql/postgresql.go:505-605 | success exactly without a fault on the path taken; column by column the row that a committed write inserts or updates, when it changes nothing, and that no other row changes |
| SinkController.Controller.ReceiveCloudEvent | cmd/sink/routers/routers.go:119-335 | which event types delete the object from the cluster, what is archived, and every status, from the request, the faults and the outcome of the delete; the effects are those of the state machine |
| Ownership.GetOwnedPodsUuids | pkg/database/sql/reader.go:264-286 | the recursion returns exactly the Pods that a chain of owners reaches, beside those it was given |
| Ownership.AcyclicTerminates | pkg/database/sql/reader.go:264-286 | without a cycle of owners the recursion ends within the number of rows |
| Ownership.TerminatesIffAcyclic | pkg/database/sql/reader.go:264-286 | the recursion ends if and only if no chain of owners comes back to a row |
| Ownership.RingNeverEnds | pkg/database/sql/reader.go:264-286 | two Jobs that own each other: the recursion does not end |
| Ownership.NewestPod | pkg/database/sql/reader.go:246-261 | no Pod exactly when none is reached; otherwise a reached Pod with the latest date |
| TailLogs.ReadEntries | cmd/api/logging/logging.go:289-314 | the entries read before the stop, or the failure met before it |
| TailLogs.WriteBufferedLogs | cmd/api/logging/logging.go:289-346 | the response for any body, failure and mode: without a tail every line that is not blank, when it fails, when nothing is found, and otherwise the lines up to where reading stops, cut to the tail |
| TailLogs.NonBlankOfSum | cmd/api/logging/logging.go:325-333 | dropping blank lines keeps the order of the others |
| TailLogs.NonBlankOfOne | cmd/api/logging/logging.go:325-333 | only a blank line is dropped |
| TailLogs.TailOfReversedIff | cmd/api/logging/logging.go:289-346 | newest first: the response is the last N lines of the whole log if and only if the shortest run of raw lines that counts N lines, blank ones included, holds N that are not blank, or only blank lines follow it |
| TailLogs.TailIsLastLines | cmd/api/logging/logging.go:289-346 | entries without blank lines always give the last N lines |
| TailLogs.BlankLineIsCounted | cmd/api/logging/logging.go:304-307 | a body with a blank line for which two lines are asked for and one comes |
| TailLogs.TailOfForwardIff | cmd/api/logging/logging.go:311-313 | oldest first, lines all different: the response is the end of the log if and only if only blank lines follow the shortest run of raw lines that counts N lines |
| TailLogs.OldestFirstShowsOldest | cmd/api/logging/logging.go:311-313 | two raw lines, oldest first, one line asked for: the older one comes |

## Left out

- Builder.FromArray: for a single list with a late digit and new ids of different widths nothing is said of its language, which depends on the ids as well; over an alphabet `Misbuilt.BuilderExactIff` has the condition.
- IndexQuery.BuildIndex: scores and field vectors; the terms are given in the order in which the source sorts them.
- Automata.Arena.SetEdge: JavaScript lists integer-like property names before others; the model sorts labels by character where the source sorts them, and takes no order from property listing elsewhere.
- EditDistance.ReachableIsAccepted: swaps are not included, because beyond distance one it is false with them (`EditDistance.SwapsAreExactIff`).
- IndexQuery.Query: scores, boosts, match metadata and the order of the results; stemming and stop words are an input, the terms a clause has after the pipeline. Field names have no slash, which the builder of the index refuses; an index field named `_index` is not considered. The token set has no loops, as no built one does (`Builder.BuiltIsLoopFree`).
- IndexQuery.Expand: the cached string of a token set used as a key elsewhere in the file.
- Vector.Vector.Magnitude: real arithmetic instead of floating point, the square root as a parameter; similarity and serialisation.
- Vacuum.SendByAPIVersionKind: resources are values, not references, so a bucket recognises an item by its contents; listings have distinct UIDs wherever it matters. CEL evaluation is a parameter, the closing log lines are absent.
- Rules.UnifyRules: rules are values, as `append` copies them; the namespace rules are not changed.
- LabelCompiler.ApplyLabelFilters: the database does not fail and does not change between resolving ids and the query; label keys contain no equals sign, as Kubernetes requires; the order of the emitted conditions follows the source only as far as their meaning needs.
- Merge.InsertSortedResourcesOptimized: entries are values; the source changes the flags of entries that the previous slice still refers to, and never reads that slice again. A UID belongs to one name.
- Merge.Run: requests, parsing, authentication errors and messages; a source that was not asked or failed has no response. The continue token is not part of this model.
- Tokens.TokenRoundTrip: the base64 layer (section 4 of RFC 4648), under which a token comes back unchanged.
- Tokens.Middleware: dates other than the canonical UTC form go through a parameter, since the parser of Go accepts more forms than RFC 3339.
- Pagination.FollowTokens: the table does not change during the walk, and stored dates are canonical, as Kubernetes writes them; rows without a date, time filters and name patterns are inside an arbitrary row filter.
- Sink.DeletedIsArchivedForever: the cluster deletes by name, and the model does not follow which object has the name by then.
- SinkController.Controller.WriteResource: log URL rows are not stored, only the failures of replacing them; the inserted, updated or none result is left out, because the commit overwrites the error that would tell.
- Ownership.NewestPod: the lookup of the resource itself, containers and log URLs; database errors.
- TailLogs.WriteBufferedLogs: streaming and paginated retrieval, and errors while the response is written.
- The MariaDB dialect: its label filters are stubs and its cursor compares another column than it sorts by.
- Kubernetes clients, HTTP, tracing, metrics, authentication, configuration, installers and webhooks.
