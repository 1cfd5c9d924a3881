# Sightpane, verified

A Dafny model of the algorithms and state machines inside the Sightpane backend, and proofs of what
they promise. Sightpane collects errors, product events and session replays; most of its code moves
rows between HTTP and PostgreSQL. What is modelled here is the rest: two lexers, a version order, a
token bucket, feature-flag arithmetic, funnel matching, the trace tree, the life of an issue, the
retention of replay frames, the source-map cache and the metric alert worker.

`dafny verify dfyconfig.toml` verifies everything.

## How the model is built

Code that changes things step by step is a method or a class whose fields are the source's fields
or tables, with the source's loops. Its contract ties the result or the new state to a specification
function; what the source promises is then proved about that function, over every input, every run
or every interleaving. Where several parties work at once - envelopes against the orphan sweeper,
loads against uploads - the protocol is a state machine whose steps may interleave in any order.

Tables and the object store are maps, sets and sequences. A committed transaction is one step. Time
is an integer or a real. The SHA-256 digest behind a flag's bucket, the filters of a flag, the glob
matcher, the folding to lower case and whether a source map parses are
function parameters, so every theorem holds for all of them; square root and normal distribution
are parameters that obey a few stated laws.

| file | what it models |
|---|---|
| `Common.dfy`, `Text.dfy` | shared types, and the string functions of Go's library the other files lean on |
| `SqlSplit.dfy` | cutting a migration file into statements |
| `SearchTokens.dfy` | the tokenizer of the search box |
| `Semver.dfy` | the version order, its exact domain and its failures |
| `Limiter.dfy` | the ingest token bucket |
| `Flags.dfy` | flag rollout and variant buckets |
| `Experiments.dfy`, `Significance.dfy` | experiment conclusion, results and their statistics |
| `Funnel.dfy` | the two funnel scans |
| `TraceTree.dfy` | the depth-first walk over spans and the run detector |
| `Issues.dfy`, `IssueHistory.dfy` | the issue tables, and what holds over every history of them |
| `Blob.dfy`, `Frames.dfy`, `Retention.dfy` | object keys, the frame protocol, purge and sweep |
| `SourceMaps.dfy`, `MapAgreement.dfy` | the cache, and the cache against the uploaded maps |
| `MetricAlerts.dfy` | rules, incidents and notifications |

## Where the code falls short of its word

Each of these is a theorem with the exact condition, or an exact statement of what happens instead.

- Resolved flag: merging a resolved issue away sets its status to ignored and leaves `resolved` set
  (`FlagsAgreeExceptAfterMerge`).
- Merged issues: what happens to the source's fingerprint after a merge is counted on the hidden row,
  announced nowhere, and never reaches the target (`MergedGoesSilent`).
- Version order: a component that is no number is compared as text, so 2 < 10 < 1a < 2
  (`CycleOutsideTheDomain`); `OrderlyIsExact` says which versions keep the order transitive.
- Pre-releases compare as plain text, against section 11 of Semantic Versioning 2.0.0;
  `StandardOrderIsExact` says for which pairs the two agree. They do not for 1.0.0-rc.10 and
  1.0.0-rc.9 (`TenComesBeforeNine`).
- Retry-After: a request dearer than a full bucket is told to come back within a minute and is never
  admitted (`TooBigIsNeverAdmitted`). All others are admitted at every moment from their Retry-After
  on, and refused up to a second before (`RetryAfterIsExact`).
- Frames: rows lose their objects when frames, as rows or in an envelope on its way, lie under a
  prefix marked for deletion. `ExposureIsExact` says that this and nothing else makes the work in
  flight dangerous; runs that stay clear of it are safe for all session ids (`UnexposedRunsAreSafe`).
  It comes about in two ways: an envelope overlaps a deletion of its session's prefix
  (`OverlapLosesFrames`), as when the sweeper meets a session that is just being created
  (`SweepRacesIngest`); or a session `a` is deleted while `a/b` lives, with nothing in flight at all
  (`SlashedSessionIsExposed`). For ids without slashes the first is the only one
  (`OrderlyRunsAreSafe`).
- Sweeping: a session is taken for the text before the first slash of its keys, so a session `a/b`
  dies with an absent session `a` (`SweptExactly`, `SlashedSessionIsSwept`).
- Retention: an item dated a day ahead is not deleted and holds on to its session row, so its whole
  batch of 500 is rolled back and the later batches of its project are not tried (`PurgeBatch`,
  `PurgeExpired`). Sessions named like a directory above an uploaded map, `sourcemaps` for one, take
  the map along when they expire (`PurgeSparesArtifacts`).
- Source maps: wrong answers stay cached after an insert of what was read before a change
  (`StaleFromNothing`, `LoadAcrossForgetIsStale`), a deletion that takes another map's object along,
  an upload that fails between object and row (`FailedUploadGoesStale`), an upload through another
  replica, which has a cache of its own (`UploadElsewhereGoesStale`), and the deletion of the project;
  `UnforgottenRunGoesStale` has the last three as runs from empty stores. `AgreementIsExact` says
  of every run step by step when an answer goes wrong. Releases of one project whose object keys
  begin one another's, like `a/b` and `a_b`, go stale even when everything happens one after the
  other and is forgotten as it should (`SeparateIsExact`).
- Spike rules: an empty baseline counts as tenfold, so a factor above 10 never fires from nothing
  (`SpikesExactly`).
- Experiments: without a linked flag, more than a hundred variants all count under the control
  (`EvenSplit`). When everybody converts under one variant and nobody under the other, the chance to
  win is 0.5 for both, and in no other case is it on the wrong side (`ChanceIsExact`). With two or
  more treatments the winner announced need not differ from the control by the test that made the
  result significant (`UnprovenWinner`); with one it does (`OneTreatmentIsDecided`).
- Metric alerts: a worker trusts the status a rule had when it was listed; `StaleStatusIsExact` says
  when a status out of date does harm. Two workers open two incidents, or leave one firing while the
  rule is calm (`TwoWorkersDisagree`, `StaleListFiresTwice`).
- `itoa` renders the least 64-bit integer as a bare sign; keys stay distinct all the same
  (`FormatId`, `ItoaIsInjective`).

## Model

| member | source | states |
|---|---|---|
| SqlSplit.SplitStatements | internal/store/migrate.go:146-202 | The jumping loop ends on every file and returns statements for exactly the pieces with a line that is neither blank nor comment, in their order: each the whole piece without the blanks around it, marked if and only if it holds the directive |
| SqlSplit.DollarTag | internal/store/migrate.go:205-219 | Finds the opener at the front, or nothing |
| SqlSplit.TagIsExact | internal/store/migrate.go:205-219 | The opener at the front of a text is letters, digits and underscores between two dollar signs, if that is how the text begins |
| SqlSplit.SkipComment | internal/store/migrate.go:154-160 | Jumping over a comment moves it whole into the current piece: no cut inside |
| SqlSplit.SkipQuoted | internal/store/migrate.go:161-175 | Jumping over a string literal, doubled quotes included, moves it whole into the current piece |
| SqlSplit.SkipDollar | internal/store/migrate.go:176-191 | Jumping to the first matching tag, or to the end of the file, agrees with the lexer's dollar mode |
| SqlSplit.UnitsStayWhole | internal/store/migrate.go:151-200 | A comment up to its line end, a literal between quotes, a dollar-quoted body up to the first repetition of its tag and every other character but the semicolon go whole into their piece, whatever follows |
| SqlSplit.OpenUnitsTakeTheRest | internal/store/migrate.go:161-191 | A literal or a body that is never closed takes the rest of the file into one piece |
| SqlSplit.SemicolonCuts | internal/store/migrate.go:192-195 | Every other semicolon cuts |
| SqlSplit.JoinUndoesSplit | internal/store/migrate.go:148-202 | Nothing is lost: the raw pieces joined by semicolons are the file |
| SqlSplit.PiecesAreSeparable | internal/store/migrate.go:146-147 | No cut falls inside a comment, a literal or a dollar-quoted body, and no piece holds a top-level semicolon |
| SqlSplit.SplitRecoversPieces | internal/store/migrate.go:146-202 | Pieces that each close what they open come back from splitting their join |
| SqlSplit.SplitIsTheInverseOfJoin | internal/store/migrate.go:146-202 | A list is the pieces of a file if and only if it is separable and joins back to the file |
| SqlSplit.AppendStatement | internal/store/migrate.go:221-227 | Adds the statement of a piece with code, and nothing for one without |
| SqlSplit.KeptWhenSomeLineIsCode | internal/store/migrate.go:127-134 | What the source looks at says that a piece is kept if and only if something stands in it, first on its line, that is no comment, although a piece of comments alone takes the fallback branch |
| SearchTokens.TokenizeSearch | internal/store/search.go:24-97 | The nested loops compute the tokens of the trimmed query and end on every string |
| SearchTokens.ReadOne | internal/store/search.go:39-74 | Reads one word with its quotes, and the place of its first unquoted colon |
| SearchTokens.PrintThenTokenize | internal/store/search.go:22-97 | Whatever mixture of bare and quoted stretches and of blanks a writer uses, the meant tokens are read back, blanks, colons and other quotes inside quotes included; a colon with nothing before it belongs to a free word, and empty quotes are no word |
| SearchTokens.OpenQuoteTakesTheRest | internal/store/search.go:45-59 | A quote that is never closed takes the rest of the query |
| SearchTokens.EveryTokenListHasAQuery | internal/store/search.go:22-97 | Every list of tokens with folded keys and non-empty free words is the reading of some query |
| SearchTokens.RequotingIsStable | internal/store/search.go:24-97 | For every query, well quoted or not, re-quoting its tokens and reading again gives the same tokens |
| Semver.Strip | internal/store/semver.go:23-47 | Parts core and pre-release after dropping a leading v and the build metadata |
| Semver.CompareVersions | internal/store/semver.go:10-103 | The loop with early returns computes the comparison by components, then by pre-release |
| Semver.FirstDifferenceDecides | internal/store/semver.go:10-103 | Versions of 64-bit numbers, with or without a leading v, pre-release, build metadata and blanks around them: the first number that differs decides, a missing one being 0; without one a pre-release is below its release and two compare as text |
| Semver.LeadingVIsNothing | internal/store/semver.go:23-25 | A leading v or V makes no difference, whatever follows but another one |
| Semver.CompareIsAntisymmetric | internal/store/semver.go:10-103 | Exchanging the arguments negates the result, on all strings |
| Semver.CompareIsTransitive | internal/store/semver.go:54-103 | A total preorder on versions whose components are 64-bit numbers, and on some more |
| Semver.UnorderlyBreaks | internal/store/semver.go:68-82 | For every other version there are two versions inside the domain that it breaks transitivity with |
| Semver.OrderlyIsExact | internal/store/semver.go:54-103 | A version keeps the order transitive beside the orderly ones if and only if it is orderly itself |
| Semver.PreReleaseDecides | internal/store/semver.go:85-100 | Any two versions whose components compare as equal: a pre-release is below its release, and two pre-releases compare as text |
| Semver.StandardOrderIsExact | internal/store/semver.go:93-100 | Two well-formed pre-releases compare by section 11 of Semantic Versioning 2.0.0 if and only if, at their first different identifiers, no two numbers of different length are the wrong way round in text, no number is textually above a word, and none is cut by a dot where the other goes on with a hyphen |
| Semver.TextIsPrecedence | internal/store/semver.go:93-100 | The same on lists of identifiers: text order of the joined lists against the precedence of the standard |
| Semver.TenComesBeforeNine | internal/store/semver.go:93-100 | 1.0.0-rc.10 compares as lower than 1.0.0-rc.9, while by the standard it has the higher precedence |
| Semver.TrailingZeroIsNothing | internal/store/semver.go:55-66 | Components that the other version lacks make no difference if and only if each is empty or a number 0, however written |
| Semver.CycleOutsideTheDomain | internal/store/semver.go:75-82 | 2 < 10 < 1a < 2 |
| Limiter.IngestLimiter.Allow | internal/server/limiter.go:36-84 | Answer and new bucket, by limit in force, elapsed time and cost; no other bucket changes |
| Limiter.CallIsExact | internal/server/limiter.go:36-84 | A bucket fills up by limit / 60 tokens a second, at most to the limit; a call is admitted if and only if all its items, at least one, can be taken out, and takes out just these |
| Limiter.FullBucketAdmits | internal/server/limiter.go:57-73 | A project not seen before, or not for a minute, is admitted a call if and only if it has no more items than the limit |
| Limiter.NoLimitAdmitsAll | internal/server/limiter.go:36-43 | Without quota and default every call is admitted and no bucket touched |
| Limiter.RunKeepsRange | internal/server/limiter.go:57-73 | Over every run with a clock that does not go back, tokens stay between 0 and the limit |
| Limiter.AdmittedIsBounded | internal/server/limiter.go:57-73 | From any moment on, a project is admitted at most as many items as are available then plus what drips in; a call without items counts as one |
| Limiter.WindowBound | internal/server/limiter.go:46-73 | Any stretch of d seconds of any run admits one project at most L + d * L / 60 items |
| Limiter.RetryIsExact | internal/server/limiter.go:57-77 | Retried after any real time t, it is admitted if and only if what was missing has dripped in by then |
| Limiter.RetryAfterIsExact | internal/server/limiter.go:64-83 | A refused call a full bucket could pay for, retried without admissions in between, is admitted at every real moment from its Retry-After on and refused up to one second before; refused attempts meanwhile cost nothing and the cap at 60 never shortens the wait |
| Limiter.RetryAtWholeSeconds | internal/server/limiter.go:64-83 | At whole seconds it is admitted if and only if they are at least the Retry-After |
| Limiter.TooBigIsNeverAdmitted | internal/server/limiter.go:70-83 | A call with more items than the limit is refused in every run, with a Retry-After all the same |
| Flags.EvaluateFlag | internal/store/feature_flags.go:221-272 | The loops compute the decision from filters, rollout bucket and variant bucket |
| Flags.OnBelowPercentage | internal/store/feature_flags.go:221-249 | A flag is on for an id if and only if it is enabled, all filters pass and the id's bucket, 0 without an id, is below the percentage |
| Flags.VariantByBucket | internal/store/feature_flags.go:251-272 | Who has it on gets the first variant whose rollouts up to its own, scaled to 100, are above the bucket of a digest of its own, and is merely on without any rollout |
| Flags.PickExists | internal/store/feature_flags.go:257-267 | With a positive total, negative rollouts included, the fallback return is unreachable |
| Flags.PickInterval | internal/store/feature_flags.go:258-266 | Variant i gets exactly the buckets from the rounded-up cumulative share before it to the one after it |
| Flags.ShareIsExact | internal/store/feature_flags.go:258-266 | How many of the 100 buckets each variant gets: ceil minus ceil, less than one away from its due, and its rollout exactly when they sum to 100 |
| Flags.NoRolloutNoPick | internal/store/feature_flags.go:258-266 | A variant without rollout is never chosen |
| Flags.RaisingKeepsEveryone | internal/store/feature_flags.go:235-249 | Raising the percentage deactivates nobody and changes nobody's variant |
| Experiments.ExperimentStore.ConcludeExperimentWinner | internal/store/experiments.go:225-294 | The experiment is concluded and the linked flag, if there is one, is rewritten; nothing else changes |
| Experiments.ConclusionForcesTheWinner | internal/store/experiments.go:247-273 | Afterwards the flag decides for the winner for every id its filters pass, whatever the hash, if the winner is one of its variants; otherwise it is merely on |
| Experiments.VariantFor | internal/store/experiments.go:387-402 | A visitor counts under the variant of the experiment the flag chooses, and under the control if it chooses none of them |
| Experiments.AssignFlag | internal/store/experiments.go:311-325 | The linked flag, or an even split over the experiment's variants |
| Experiments.EvenSplit | internal/store/experiments.go:313-325 | Without a linked flag up to a hundred variants get less than one bucket away from an even share each; with more, everybody counts under the control |
| Experiments.EvenSplitChooses | internal/store/experiments.go:313-325 | Which variant that is: the place of the bucket among as many even stretches of the hundred |
| Experiments.CountParticipants | internal/store/experiments.go:378-438 | The loop's tallies are the numbers of visitors, and of converted visitors, that the flag puts under each variant |
| Experiments.MeasureVariants | internal/store/experiments.go:410-462 | Every row has its rate, interval, lift, p-value and chance against the first row, and the significance is the strongest of the differences |
| Experiments.RowsCompareWithControl | internal/store/experiments.go:419-459 | In every row rate times participants is conversions, the interval holds the rate, control rate times lift is the difference, and the chance is above 0.5 exactly when the rate is above the control's, all against none excepted |
| Experiments.BestKey | internal/store/experiments.go:467-476 | The key of the first variant with the highest rate |
| Experiments.CalculateExperimentResults | internal/store/experiments.go:296-485 | Total and counts per variant under the assigning flag, each variant rated against the control, and the verdict: significant if and only if some variant differs at 0.05, and then won by the first of the highest rates |
| Experiments.OneTreatmentIsDecided | internal/store/experiments.go:464-482 | With one treatment a significant result names the variant with the strictly higher rate, and the two differ at 0.05 whichever is the control |
| Experiments.UnprovenWinner | internal/store/experiments.go:464-482 | With two, a variant whose own difference is not significant is announced as winning when the other one differs |
| Experiments.ParticipantsAddUp | internal/store/experiments.go:382-408 | Over distinct variants the participants sum to the total, whatever the flag |
| Experiments.ConversionsNeverExceed | internal/store/experiments.go:387-408 | No variant has more conversions than participants |
| Significance.IntervalHoldsTheRate | internal/store/experiments.go:487-495 | The confidence interval lies between 0 and 1 and holds the rate |
| Significance.MarginIsExact | internal/store/experiments.go:487-495 | The interval reaches 1.96 standard deviations to both sides, cut at 0 and 1 |
| Significance.OnlyEqualRatesSayNothing | internal/store/experiments.go:498-524 | A p-value is between 0.0001 and 1, and is 1 if and only if the two rates are the same |
| Significance.PValueIsTheTwoTailedTest | internal/store/experiments.go:503-524 | The p-value is the two-tailed one of the difference in units of its pooled standard deviation, cut at 0.0001 |
| Significance.ChanceIsExact | internal/store/experiments.go:526-533 | The chance to win is on the side of 0.5 where the rates are if and only if it is not all against none, where it is 0.5 |
| Significance.SidesAreSymmetric | internal/store/experiments.go:498-541 | Exchanging the two sides keeps the p-value and turns the chance into its complement |
| Funnel.MatchForResults | internal/store/funnels.go:239-265 | The first copy of the matching loop computes the scan |
| Funnel.MatchForDropoffs | internal/store/funnels.go:382-406 | The second copy computes the same scan |
| Funnel.GreedyIsOptimal | internal/store/funnels.go:243-265 | m steps are reached if and only if some increasing choice of events matches the first m steps from the first occurrence of step 0 within the window, repeated names included |
| Funnel.OtherNamesDoNotMatter | internal/store/funnels.go:225-227 | Dropping events with other names changes no session's result |
| Funnel.MadeIsOptimal | internal/store/funnels.go:218-265 | The same optimality over the rows of the query, ordered by session and time |
| Funnel.MadeByRows | internal/store/funnels.go:218-265 | The same over rows: a session made m steps if and only if m of its rows, in increasing order, make them from its first row with step 0 and within the window |
| Funnel.DurationIsShortest | internal/store/funnels.go:269-272 | A converted session's duration is the shortest, in whole seconds, that any of its rows take to make all steps |
| Funnel.GroupBySession | internal/store/funnels.go:218-228 | The groups are the sessions with events of the funnel, each with its events in order |
| Funnel.CountSteps | internal/store/funnels.go:233-275 | The counter of a step is the number of sessions that reached it, and the durations are those of the converted sessions, in whatever order the map is walked |
| Funnel.MedianOf | internal/store/funnels.go:288-292 | The middle of the sorted durations: half the converted sessions, rounded down, took less time and more than half took no more |
| Funnel.CalculateFunnelResults | internal/store/funnels.go:183-329 | Entered, converted, rates, median conversion time, and per step count, drop-off and rates; every rate times its whole is its part |
| Funnel.RatesMultiply | internal/store/funnels.go:302-310 | The conversion rate of the next step is this one's times what does not drop off, and drop-off rates are between 0 and 1 |
| Funnel.CountsDropByLeavers | internal/store/funnels.go:294-300 | Counts never increase, and the drop-off of a step is the number of sessions whose last step it is |
| Funnel.NobodyIsLost | internal/store/funnels.go:277-300 | Entered is converted plus all drop-offs |
| Funnel.GetFunnelDropoffs | internal/store/funnels.go:331-418 | Returns distinct sessions whose last step is the asked one, and all of them when the limit allows: the very sessions the other scan counts as drop-off |
| TraceTree.GroupChildren | internal/store/spans.go:381-392 | Children by parent |
| TraceTree.FindRoots | internal/store/spans.go:394-403 | The spans without a parent in the trace, or the first span |
| TraceTree.TraceBuilder.Traverse | internal/store/spans.go:410-421 | The recursive closure computes the visit and ends on every parent relation, cycles and duplicate ids included |
| TraceTree.OrderSpans | internal/store/spans.go:381-431 | Order and depths of the whole trace |
| TraceTree.EverySpanOnce | internal/store/spans.go:405-431 | Every distinct id is listed exactly once and has a depth, whatever the parents |
| TraceTree.DepthIsChainLength | internal/store/spans.go:394-421 | With unique ids, a span whose ancestor chain reaches a root has that chain's length as depth |
| TraceTree.SubtreesAreContiguous | internal/store/spans.go:410-425 | The subtree of such a span, whole and alone, is one contiguous stretch that begins with it |
| TraceTree.SiblingsInRowOrder | internal/store/spans.go:385-425 | With unique ids two roots, and two spans with one parent that hangs from a root, are listed in the order of their rows |
| TraceTree.RootedComeFirst | internal/store/spans.go:423-431 | What hangs from a root is listed before everything that does not |
| TraceTree.FirstLeftoverComesNext | internal/store/spans.go:426-431 | The first row that hangs from no root follows, before all others of its kind |
| TraceTree.EverySpanHangs | internal/store/spans.go:410-431 | Whatever the parents, cycles and repeated ids included, every listed span is at depth 0 or one below a parent listed before it |
| TraceTree.DetectRuns | internal/store/spans.go:433-489 | The loop reports the runs of the specification, and marks exactly the spans they mention |
| TraceTree.IssuesAreMaximalRuns | internal/store/spans.go:444-489 | A stretch is reported if and only if it is a maximal run of at least three equal queries |
| TraceTree.IssuesInOrder | internal/store/spans.go:444-489 | The runs are reported in the order in which they are listed, and none reaches into the next |
| TraceTree.SuspectsAreTriples | internal/store/spans.go:433-434 | A position is under suspicion if and only if it stands among three equal queries in a row |
| Issues.MatchFingerprintRule | internal/store/issue_workflow.go:38-58 | The first rule all of whose tests pass: exception and stack contain the given text, the message matches the glob or contains it, case aside |
| Issues.DecideStatus | internal/store/ingest.go:343-388 | Target status and event kind, branch by branch |
| Issues.IssueStore.Upsert | internal/store/ingest.go:390-413 | The row inserted or updated, its id and new count |
| Issues.IssueStore.IngestError | internal/store/ingest.go:310-434 | The tables and the event after one error item |
| Issues.IssueStore.Ingest | internal/store/ingest.go:270-552 | All items of an envelope in order: what each is counted as, accepted or rejected; issues, items and events of the errors; the other kinds touch none of these |
| Issues.EveryItemIsCounted | internal/store/ingest.go:270-552 | Every item is accepted or rejected, rejected if unreadable, unknown or a frame that cannot be stored; the session's row counts the errors, the events and the frames stored |
| Issues.ErrorsAreRecorded | internal/store/ingest.go:415-434 | The errors counted for the session are exactly the error items recorded, whatever becomes of their issues |
| Issues.IssueStore.SetIssueStatus | internal/store/issue_workflow.go:65-73 | Folds the case, refuses unknown statuses, otherwise status and flag agree |
| Issues.IssueStore.SnoozeIssue | internal/store/issue_workflow.go:75-78 | Starts a snooze from the present count |
| Issues.IssueStore.MergeIssue | internal/store/issue_workflow.go:82-134 | Merges exactly when both issues exist, differ, share the project and are unmerged; otherwise changes nothing and names the reason |
| Issues.IssueStore.SetIssueResolvedWithRelease | internal/store/query.go:411-434 | Resolves or reopens, remembering the release by the three branches |
| IssueHistory.NewIssueOnce | internal/store/ingest.go:349-352 | In every history a fingerprint is announced as new at most once |
| IssueHistory.NewIssueExactly | internal/store/ingest.go:343-352 | In every history a fingerprint is announced as new, once, if and only if it was unknown, occurs, and no rule ignores its first occurrence |
| IssueHistory.FirstOccurrence | internal/store/ingest.go:343-413 | The first occurrence stores an open issue with count 1 and is announced, or an ignored one in silence when its rule says so |
| IssueHistory.AnnouncementsTellTheRow | internal/store/ingest.go:420-434 | Every announcement names the row its occurrence went to, which is open and has the count announced |
| IssueHistory.RuleGroups | internal/store/ingest.go:322-326 | An occurrence goes to the fingerprint its rule groups it under, or to its own |
| IssueHistory.RegressionIsReopening | internal/store/ingest.go:353-388 | A regression is announced exactly when an occurrence moves its issue from snoozed or resolved to open |
| IssueHistory.SettledStaysSettled | internal/store/ingest.go:354-387 | Ignored is absorbing under ingest, and so is open; neither announces anything |
| IssueHistory.SnoozeWakesAtFirst | internal/store/ingest.go:356-369 | Snoozed for k occurrences, until a deadline or both, and left alone, an issue is woken by precisely the first later occurrence that is the k-th or not before the deadline, and announces one regression |
| IssueHistory.SnoozeCountsOccurrences | internal/store/ingest.go:356-369 | Without deadline that is the k-th, whatever happens to other issues meanwhile |
| IssueHistory.ResolvedStaysOnlyForOlder | internal/store/ingest.go:370-383 | An occurrence leaves a resolved issue resolved if and only if both releases are named and its own is older |
| IssueHistory.ResolvingReleaseReopens | internal/store/ingest.go:371-380 | An occurrence of the very release an issue was resolved in opens it again and announces that |
| IssueHistory.ResolveThenOccur | internal/store/query.go:411-434 | Resolved in a release named, or else in the last one seen, an issue stays resolved under an occurrence if and only if that comes from an older release |
| IssueHistory.LastReleaseIsKept | internal/store/ingest.go:390-413 | Over every history an issue keeps the last release its occurrences named |
| IssueHistory.FirstReleaseIsKept | internal/store/ingest.go:390-413 | And the first one, once it has one |
| IssueHistory.OlderReleasesNeverReopen | internal/store/ingest.go:371-374 | However many occurrences older releases send, the issue stays resolved |
| IssueHistory.OlderIsDownward | internal/store/ingest.go:372-374 | Among orderly versions, what is at most an older release is older too |
| IssueHistory.FlagsAgreeExceptAfterMerge | internal/store/issue_workflow.go:121-123 | The flag agrees with the status after an operation if and only if it is not a merge of a resolved issue |
| IssueHistory.MergedGoesSilent | internal/store/issue_workflow.go:121-131 | In every history after a merge the source's later occurrences are counted on its hidden row and announced nowhere, and the target gains exactly its own |
| IssueHistory.MergeKeepsCounts | internal/store/issue_workflow.go:121-131 | A merge keeps every unmerged issue's count equal to the items that carry its id |
| IssueHistory.StepKeepsCounts | internal/store/ingest.go:402-418 | So does every other operation |
| IssueHistory.NoMergeCycle | internal/store/issue_workflow.go:111-123 | No issue is, however many merges up, merged into itself |
| IssueHistory.HistoriesAreSound | internal/store/issue_workflow.go:82-134 | Every history keeps the unique index, the counts and acyclic merging |
| IssueHistory.FromNothing | internal/store/ingest.go:402-418 | The same, spelled out, for every state reachable from empty tables |
| Blob.FrameKeyIsInjective | internal/blob/blob.go:59-75 | Two frames share an object only if they are the same frame, for all session ids and past six digits too |
| Blob.FrameKeysSort | internal/blob/blob.go:71-75 | Keys of one session sort as their numbers up to six digits |
| Blob.PaddedIsRead | internal/blob/blob.go:71-75 | Frame numbers are written in decimal digits with zeros in front up to six |
| Blob.PrefixIsHead | internal/blob/blob.go:66-69 | A slash-free session's prefix selects exactly the keys whose first segment it is |
| Blob.PrefixSelectsFrames | internal/blob/blob.go:66-75 | A session's prefix selects a frame if and only if the session is the frame's own or directories above it, for all session ids |
| Blob.ArtifactKeyCollides | internal/blob/blob.go:84-113 | Two artifacts share an object if and only if project, safe release and safe file name agree |
| Blob.DecimalIsRead | internal/blob/blob.go:89-92 | Project numbers are written in decimal digits without a zero in front |
| Blob.SafeSegmentKeeps | internal/blob/blob.go:94-113 | Names of safe characters, not all dots, are kept |
| Blob.SafeSegmentIsExact | internal/blob/blob.go:94-113 | Unsafe characters become underscores, the others stay, and a name of dots alone is one underscore |
| Blob.ReleasePrefixSelects | internal/blob/blob.go:89-92 | A release's prefix selects exactly the artifacts of its project and safe release |
| Blob.ArtifactKeyPrefixes | internal/store/artifact.go:125-125 | Deleting an artifact by prefix takes another along if and only if project and safe release agree and the safe file name begins the other's |
| Blob.SessionPrefixMeetsArtifact | internal/blob/blob.go:66-92 | An artifact lies under a session's prefix if and only if the session is named like one of the three directories above it |
| Blob.FramesAndArtifactsAreApart | internal/blob/blob.go:77-83 | Frames of slash-free sessions other than sourcemaps and artifacts never meet, in keys or in prefixes |
| Frames.StepIsSound | internal/store/ingest.go:157-166 | For all session ids: while nothing with frames lies under a prefix marked for deletion, every step of ingest, purge, sweep and deletion keeps the discipline: object before row, row deleted before object |
| Frames.UnexposedRunsAreSafe | internal/store/retention.go:80-120 | For all session ids: in every run in which that never happens every frame row has its object, whatever else interleaves or fails |
| Frames.ExposedRowIsLost | internal/store/retention.go:115-127 | A row under a marked prefix loses its object when the deletion comes, with nothing else in flight |
| Frames.OrderlyRunsAreSafe | internal/store/retention.go:80-120 | A corollary for ids without slashes: it is enough that no envelope with frames is in flight across a deletion of its own session's prefix |
| Frames.OrderlyFromNothing | internal/store/ingest.go:293-309 | The corollary from empty stores |
| Frames.DeletionSpares | internal/blob/blob.go:66-69 | Deleting a session's prefix takes a frame if and only if the session is the frame's own or above it; of a slash-free session only its own deletion takes any |
| Frames.OverlapLosesFrames | internal/store/retention.go:198-206 | From every state with an envelope with frames under a marked prefix, its session's own or not, however few frames are stored, the envelope can go on to its end and leave rows without objects, with the deletion first or the commit first |
| Frames.ExposureIsExact | internal/store/retention.go:80-209 | All ways to carry on with what is in flight are safe if and only if no row and no envelope with frames is under a marked prefix |
| Frames.SlashedSessionIsExposed | internal/store/retention.go:80-120 | Purging a takes the frames of every session a/b that lives on, with nothing in flight and each deletion apart from its own session's envelopes |
| Frames.SweepRacesIngest | internal/store/retention.go:136-209 | The interleaving of sweep and first envelope that loses a frame |
| Retention.SweptExactly | internal/store/retention.go:138-148 | For every session id, its frames are swept if and only if the text before the first slash of its keys is neither empty nor sourcemaps nor a living session; without slashes that text is the id |
| Retention.SlashedSessionIsSwept | internal/store/retention.go:143-146 | Every session a/b is swept with an absent session a |
| Retention.FrameStore.SweepBatch | internal/store/retention.go:165-206 | One batch of the sweeper: the prefixes of its sessions without a row, and how many they are |
| Retention.FrameStore.SweepAll | internal/store/retention.go:162-208 | The batches together cover all sessions once |
| Retention.FrameStore.SweepOrphanFrames | internal/store/retention.go:134-209 | What is left is exactly what is no orphan; the return value counts the sessions swept |
| Retention.OrphansAreUnder | internal/store/retention.go:138-151 | The walk finds a session's prefix for every orphan and for nothing else |
| Retention.SweepLeavesTheLiving | internal/store/retention.go:134-209 | After an undisturbed sweep frame objects of slash-free ids are left only for existing sessions, and a row has lost its object if and only if its session was taken for an absent one |
| Retention.PurgeSparesFrames | internal/store/retention.go:78-209 | For all session ids, a purge and the sweep after it leave a frame if and only if no purged session is its own or above it and its session is not taken for an absent one |
| Retention.PurgeSparesArtifacts | internal/store/retention.go:115-127 | A purge and the sweep after it spare an uploaded map if and only if no purged session is named like a directory above it |
| Retention.FrameStore.PurgeBatch | internal/store/retention.go:78-120 | One transaction for the rows of a batch, then its objects; rolled back if and only if an item of the batch is dated a day ahead |
| Retention.FrameStore.PurgeAll | internal/store/retention.go:72-121 | Batches of 500 up to the first that is rolled back; all are done if and only if no session is held |
| Retention.FrameStore.PurgeProject | internal/store/retention.go:31-121 | Of one project, by its own or the default days, only expired sessions go, none that is held, and all if and only if none is held |
| Retention.FrameStore.PurgeExpired | internal/store/retention.go:22-132 | A session within the days its project keeps stays, with rows and items; one past them goes, with rows, items and objects, unless an older session of its project has an item dated a day ahead; then the orphans go; everything expired goes if and only if nothing is held; the return value is the number gone |
| SourceMaps.Cache.constructor | internal/symbol/symbol.go:100-110 | An empty cache, with the default bound for none |
| SourceMaps.Cache.Lookup | internal/symbol/symbol.go:164-176 | The first critical section: a hit comes to the front, nothing else is added or lost, and a miss changes nothing |
| SourceMaps.Cache.Insert | internal/symbol/symbol.go:204-221 | The second one: whoever came first wins, otherwise the entry goes in front and eviction runs; index, list and byte count agree afterwards and the new entry is there |
| SourceMaps.ListIsByLastUse | internal/symbol/symbol.go:164-248 | Over every history of lookups, inserts and forgets the list is in order of last use, the latest in front |
| SourceMaps.LeastRecentlyUsedGoes | internal/symbol/symbol.go:204-233 | What an insert drops was last used before everything it keeps |
| SourceMaps.Cache.Evict | internal/symbol/symbol.go:223-233 | Drops from the back until both bounds hold or one entry is left |
| SourceMaps.EvictedIsLongestPrefix | internal/symbol/symbol.go:223-233 | What stays is the longest prefix of the order of use within both bounds, never less than the newest entry |
| SourceMaps.Cache.Forget | internal/symbol/symbol.go:235-248 | Removes exactly the keys with the prefix, in whatever order the map is walked, with the byte count |
| SourceMaps.FormatId | internal/symbol/symbol.go:254-273 | Filling 20 bytes from the back gives the decimal digits of every 64-bit integer but the least, which overflows to a bare sign |
| SourceMaps.ItoaIsInjective | internal/symbol/symbol.go:254-273 | No two 64-bit integers are rendered alike |
| SourceMaps.PrefixIsRelease | internal/symbol/symbol.go:237-252 | For releases without NUL the prefix Forget uses matches exactly the keys of that project and release |
| SourceMaps.CacheKeyIsInjective | internal/symbol/symbol.go:250-252 | A key determines project, release and file name |
| MapAgreement.StepAgreesExactly | internal/symbol/symbol.go:178-221 | From agreement of cache and store a step of lookup, load, insert, upload or deletion, by this process or another, leads to agreement if and only if it is harmless: an insert is fresh, or late, or about to be forgotten; deleted objects are not cached; a failed upload, or a change this process will not forget, changes no cached answer |
| MapAgreement.AgreementIsExact | internal/store/artifact.go:53-150 | A run with any number of loads, uploads and deletions at once agrees throughout if and only if each of its steps is harmless when it is taken |
| MapAgreement.StepIsSound | internal/symbol/symbol.go:178-221 | Every step keeps agreement, when no load holds a read across a change of its release |
| MapAgreement.CacheAgrees | internal/store/artifact.go:53-150 | Keeping loads and changes of one release apart is enough, when changes that are not forgotten do no harm: then a cached answer is at every moment what reading the store would give, missing and unparsable maps included |
| MapAgreement.CacheAgreesFromNothing | internal/store/artifact.go:53-150 | The same from empty stores |
| MapAgreement.CacheStaysBounded | internal/symbol/symbol.go:160-233 | In every run, overlapping or not, the cache holds each key once and is within its bounds or down to one entry |
| MapAgreement.SeparateIsExact | internal/blob/blob.go:84-113 | All runs that keep loads and changes apart, and in which unforgotten changes do no harm, agree if and only if no object key of one release begins an object key of another release of the project |
| MapAgreement.NamesHaveKeys | internal/symbol/symbol.go:237-252 | Cache keys identify names, and prefixes their release |
| MapAgreement.StepsUseTheCache | internal/symbol/symbol.go:164-248 | What lookups, inserts and forgets do to the list in these runs is what the cache's methods do |
| MapAgreement.UploadRuns | internal/store/artifact.go:62-84 | An upload is object, row and Forget in this order, or ends after the object |
| MapAgreement.FailedUploadGoesStale | internal/store/artifact.go:62-80 | After an upload that fails at its row a cached answer stays right if and only if it has no row, or another object, or the new bytes answer the same |
| MapAgreement.UploadElsewhereGoesStale | internal/store/artifact.go:62-83 | After an upload through another replica a right cached answer stays right if and only if the object is another, or there is no row, or the new bytes answer the same |
| MapAgreement.UnforgottenRunGoesStale | internal/store/project.go:242-295 | Runs from empty stores: a map is uploaded and loaded, then another upload fails at its row, or goes through another replica, or the project is deleted; at rest the cache is right if and only if the new answer is the old one |
| MapAgreement.LoadAcrossForgetIsStale | internal/symbol/symbol.go:178-217 | What a load read before an upload and inserts after it is cached, and right if and only if the uploaded bytes answer the same |
| MapAgreement.StaleFromNothing | internal/symbol/symbol.go:178-217 | A run from empty stores that ends at rest with a wrong answer cached |
| MapAgreement.ConfusedReleasesGoStale | internal/store/artifact.go:82-83 | An upload never forgets another release's cached answer, which stays right if and only if it has no row, or another object key, or the new bytes answer the same |
| MapAgreement.ConfusedRunGoesStale | internal/store/artifact.go:115-126 | For any two releases of a project one of whose object keys begins the other's: upload both, load one, delete the other, one after the other, and the cache is wrong |
| MetricAlerts.MetricWorker.EvaluateRule | internal/alert/metric_worker.go:80-159 | Status, incidents and notices after one evaluation of a rule as it was listed, current or not |
| MetricAlerts.ThresholdsDecide | internal/alert/metric_worker.go:96-110 | A value beyond the critical threshold fires, one beyond the warning threshold alone warns, per operator, and every other is calm |
| MetricAlerts.EvaluateAnomaly | internal/alert/anomaly.go:25-43 | The spike test, with its defaults |
| MetricAlerts.SpikesExactly | internal/alert/anomaly.go:25-43 | A spike is a value of at least 5 and at least so many times the baseline, a factor up to 1 standing for 2; from an empty baseline it counts as tenfold, so a factor above 10 never fires there |
| MetricAlerts.FurtherIsNoMilder | internal/alert/metric_worker.go:88-110 | A value further out is never judged milder, whatever the thresholds |
| MetricAlerts.MetricWorker.EvaluateAll | internal/alert/metric_worker.go:68-78 | A pass over the listed rules is the run of their evaluations: the statuses they carry stay current until their turn |
| MetricAlerts.MetricWorker.UpdateMetricRuleStatus | internal/store/metric_alerts.go:253-256 | Sets one rule's status, if the rule is there |
| MetricAlerts.MetricWorker.GetActiveIncidentForRule | internal/store/metric_alerts.go:297-313 | The rule's youngest firing incident |
| MetricAlerts.MetricWorker.CreateMetricIncident | internal/store/metric_alerts.go:315-332 | A new firing incident |
| MetricAlerts.MetricWorker.UpdateIncidentPeak | internal/store/metric_alerts.go:334-337 | The peak only rises |
| MetricAlerts.MetricWorker.ResolveActiveIncident | internal/store/metric_alerts.go:339-344 | Resolves a firing incident, with its last value; a resolved one is left alone |
| MetricAlerts.TablesMirrorHistory | internal/alert/metric_worker.go:114-158 | Over every history, rules interleaved: one incident per stretch of firing, in order, its peak the maximum of the values from trigger through resolution; notices alternate between firing and resolved |
| MetricAlerts.AnnouncedOnce | internal/alert/metric_worker.go:114-158 | Every evaluation, with a status out of date too, keeps it so that each incident is announced once and its end once |
| MetricAlerts.AnnouncedOverHistories | internal/alert/metric_worker.go:114-158 | Over every history each notice names an incident of its own rule, each incident one firing notice, and each ended one a resolved notice |
| MetricAlerts.StaleStatusIsExact | internal/alert/metric_worker.go:114-158 | An evaluation under any believed status keeps one firing incident while firing if and only if it is not the case that the rule fires, the worker does not know, and it finds the rule firing or changes the status it believes in |
| MetricAlerts.TwoWorkersDisagree | internal/alert/metric_worker.go:114-158 | Of two workers that both listed a rule while it was calm, the second does no harm if and only if its verdict is the status it believed |
| MetricAlerts.StaleListFiresTwice | internal/alert/metric_worker.go:115-121 | If both find it firing they open two incidents, and the next calm closes only the younger |
| MetricAlerts.OneFiringIncident | internal/alert/metric_worker.go:114-158 | A rule has exactly one firing incident while its status is firing and none otherwise |

## Left out

- HTTP, authentication, SQL text and row scanning, schema migrations, e-mail and webhooks: plumbing around what is modelled.
- Concurrent PostgreSQL transactions: a committed transaction is one step, so two ingests of one fingerprint do not overlap inside it.
- Failures of the database in ingest, merge and the alert worker; `Frames.dfy` and `MapAgreement.dfy` have abandoned envelopes, partial deletions, failing loads and failing uploads.
- Retention.FrameStore.PurgeExpired: the one failure modelled is the one the schema forces, an item that refers to a session row; nothing runs beside it, and what interleaves is in `Frames.dfy`. Spans, which go with their session by cascade, are not among its tables.
- Limiter.IngestLimiter.Allow: exact reals instead of floating point, and the clock is a parameter.
- Limiter.WindowBound: one limit throughout and a clock that does not go back; a quota changed in between would need a bound for each stretch.
- MetricAlerts.TablesMirrorHistory: one worker, whose listed statuses are current; `EvaluateAll` shows that they are.
- MetricAlerts.MetricWorker.EvaluateRule: exact reals; the foreign key of an incident to its rule is left out; the measured value and its baseline are inputs; summaries and times are left out, and an incident's age is its position.
- Experiments.CalculateExperimentResults: the queries' results are inputs; an experiment without variants, on which the source panics as soon as somebody took part, is excluded; names of variants are left out.
- Significance.ChanceIsExact: exact reals instead of floating point; the square root and the distribution function of the library are parameters with the laws of `Lawful`, the distribution strictly increasing as in theory, where floating point saturates far from 0.
- Experiments.ExperimentStore.ConcludeExperimentWinner: one transaction that does not fail; names and update times are left out.
- Funnel.CalculateFunnelResults: rates are exact; the start time of the query is that of the rows given.
- Flags.EvaluateFlag: the hash is any digest taken modulo 100, and matching of filters any predicate.
- SearchTokens.TokenizeSearch: lower-casing is a parameter; what the query builder does with tokens is left out.
- Issues.MatchFingerprintRule: lower-casing and the glob matcher of the library are parameters.
- Issues.IssueStore.Ingest: what the other kinds of items write into tables of their own (frames, spans, profiles, the session's end) and the items of theirs in the item table are left out, as are titles and first and last times; parsing, scrubbing and fingerprinting happen before.
- IssueHistory.FromNothing: retention, which deletes items and keeps counters, is not among the operations.
- TraceTree.OrderSpans: spans are ids and parents; names and the test for a database call come in with the detector's input, and times, offsets and the trace's status are left out.
- SourceMaps.Cache.Lookup: the guard for an empty file name and the choice of a map's name belong to callers that are left out, like symbolication itself (`Resolve`, `mapNameFor`, `cleanSource`) and the source-map parser.
- MapAgreement.AgreementIsExact: one process's cache; what other replicas upload and delete appears as changes it does not forget, while their own caches are the same model again. The two reads of a load, row then object, are one step; names arrive trimmed, with 64-bit projects and no NUL in releases, which the database could not store.
- Text.TrimSpace: strings are sequences of code points; the bytes of invalid UTF-8 are left out.
- Blob.SafeSegmentKeeps: how the file-system backend cleans a path is left out; the object store is a map from keys.
