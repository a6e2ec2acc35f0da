# Okwan reconciliation, modelled in Dafny

This project models the parts of Okwan where money is paired, counted, limited
or billed, and proves what those parts promise.

- **The reconciliation engine.** Two lists of records and an ordered list of
  match rules (`ExactRef`, `Fuzzy`, `GroupRef`, `GroupSum`). Each rule takes the
  records of one side in order, decides each against the other side's unclaimed
  records, and takes what it claims out of play. What no rule claims is split
  into misses and records that could not be verified; every pair's amounts are
  compared, and a difference is explained by the smallest combination of
  declared causes.
- **The fold across rails**, with the coverage and the paging loop that decide
  whether "not found" is evidence.
- **The settlement calendar** and the one-way lag built on it.
- **The stateful pieces**: the fixed-window limiter, the token bucket, run
  history, the tenant forest with metering and quotas.
- **Two round trips**: minor units through a decimal string, and result paging
  through an opaque cursor.

## How it is organised

| file | what it models |
|---|---|
| `Rows.dfy`, `Declaration.dfy` | records as the engine reads them; a reconciliation's declaration |
| `Matching.dfy` | what each rule decides, with no loop, index or `consumed` set in sight |
| `SubsetSearch.dfy`, `GroupSums.dfy` | the pruned subset search, and why a GroupSum match is forced |
| `Appliers.dfy` | the rule appliers as loops over a result object, each proved to do exactly what `Matching` says |
| `Decisions.dfy` | when each kind of rule claims, asks or passes on, said of the unclaimed records alone |
| `MatchFacts.dfy`, `Scoring.dfy`, `Differences.dfy`, `Explaining.dfy` | what holds after any list of rules; amounts, differences and their explanation |
| `Coverage.dfy`, `Engine.dfy`, `Questions.dfy` | what a side read; `match` as a whole and its promises; what it reports as ambiguous |
| `Across.dfy`, `AcrossFacts.dfy`, `VerdictFacts.dfy`, `Fetch.dfy` | the fold, what its verdicts are and what they are evidence of, and the reads beneath it |
| `Calendar.dfy` | Gregorian dates, Federal Reserve holidays, business days |
| `Limiter.dfy`, `TokenBucket.dfy`, `Runs.dfy`, `Tenants.dfy` | the stateful pieces |
| `Money.dfy`, `Paging.dfy` | the round trips |

Each loop or state change of the source is a method, proved equal to a
function; each promise is a lemma about that function. A row is a value with an
identity, because the code keys on `id(row)`; `Distinct` says that no object
comes twice. `Matching.Admits` is the reference for "may answer", and
`GroupSums.Fitting` for "may answer together"; neither mentions a search.

## Where the code does less, or other, than it says

Kept as in the code, and stated exactly, each with an input that shows it:

- A group whose amounts are text that reads as numbers is matched on their sum
  but compared at the one value its members share. A pair a GroupSum rule made
  is then reported outside the rule's tolerance: exactly then
  (`Engine.GroupPairsBalance`; the engine makes such a pair in
  `Engine.TextPairIsMade`).
- An operation that takes no cursor, asked for a page that continues, is asked
  for the same page again until the cap (`Fetch.WithoutCursor`,
  `Fetch.PageOneTwice`). It still
  reports itself truncated. If that page is empty and the cap is not zero, the
  loop does not end: exactly then (`Fetch.FetchEndsIff`,
  `Fetch.EmptyPageNeverEnds`).
- A read whose rows fill the cap exactly before empty pages is called truncated
  although nothing was left: exactly then (`Fetch.FalseAlarmIff`,
  `Fetch.EmptyPageAlarms`).
- The token bucket credits a sleep a second time after it. Its throughput is
  bounded by twice the rate (`Throttle.Throughput`), and by burst + rate * T
  plus one for each acquire that slept (`Throttle.ThroughputBySleeps`). Without
  a sleep the plain bound holds (`Throttle.PlainBoundHolds`); no profile has it
  for all its runs (`Throttle.PlainBoundFails`).
- Converting a decimal rounds twice: the product to 28 significant digits, then
  to whole minor units. The result is further than half a minor unit from the
  exact value exactly when the first rounding goes up onto a half
  (`Money.RoundingIsNearIff`, `Money.HalfACentShort`). From half a minor unit
  below 10^28 on the conversion raises, outside its own handler
  (`Money.RaisesIff`).
- `Limiter.take` is documented to return the time until the first refusing
  window resets; it returns that of the last, which is the wait that is needed
  (`Limits.WaitIsExact`). The two are the same exactly when all refusing windows
  reset together (`Limits.WaitIsEarliestIff`, `Limits.EarliestIsTooSoon`). A
  rule with a window of zero or less refuses nothing (`Limits.WaitMeans`,
  `Limits.NoWindowNoLimit`).
- The limiter's sweep goes by a table of rules. For a rule that is not in it,
  every attempt counted is forgotten (`Limits.SweepAnswers`,
  `Limits.UnlockForgotten`).
- The amounts compared, where the declaration names none, are documented as
  those of the first Fuzzy rule; a GroupSum rule before it gives its own
  (`Differences.ResolvedIff`, `Differences.SumBeforeFuzzy`). Timestamps likewise
  (`Engine.MissingIff`).
- Tenants may be created at any depth, but the upward walk stops after eight
  steps: below that, authorisation and billing disagree with the subtree
  (`Tenants.UpMeetsDown`, `Tenants.PayerIsARootIff`), in a store the operations
  build (`Tenants.DeepLine`), and a deep request is gated by an account that is
  not its root (`Tenants.DeepRequest`).
- Across rails, an order matched in a group of several gets no verdict from that
  rail, and is reported unverifiable although it was matched
  (`AcrossFacts.OneVerdictPerRail`, `AcrossFacts.UnverifiableIff`, two such
  orders in `AcrossFacts.BatchesAreUnverifiable`). Where every rule takes orders
  one at a time, each order gets exactly one verdict per rail
  (`AcrossFacts.EveryRailSpeaks`).
- A Fuzzy window of zero is read as one second (`Matching.ZeroWindowIff`); a
  GroupSum window of zero is not (`Matching.ZeroSumWindow`); two records a
  second apart show both (`Matching.ASecondApart`).

## Model

| member | source | states |
|---|---|---|
| SubsetSearch.SortedSorts | packages/recon/okwan_recon/engine.py:594 | the search order is ascending by amount and a rearrangement of the members |
| SubsetSearch.EnumIsAllFits | packages/recon/okwan_recon/engine.py:598-613 | the unpruned walk lists every non-empty group of at most `max_members` that sums to the target within tolerance, each once |
| SubsetSearch.PruneLosesNothing | packages/recon/okwan_recon/engine.py:605-610 | over non-negative amounts in ascending order, after an overshoot no group that goes on fits |
| SubsetSearch.Search.Walk | packages/recon/okwan_recon/engine.py:598-604 | the pruned walk appends to `found` exactly what the unpruned listing would, cut at two |
| SubsetSearch.Search.Scan | packages/recon/okwan_recon/engine.py:605-613 | so does its `for` loop |
| SubsetSearch.Search.Try | packages/recon/okwan_recon/engine.py:605-613 | and one turn of it; breaking off leaves nothing unmet |
| SubsetSearch.SubsetsSumming | packages/recon/okwan_recon/engine.py:590-616 | returns the first two fits of the unpruned listing |
| SubsetSearch.SearchIsExact | packages/recon/okwan_recon/engine.py:590-616 | the result is min(2, N) different fitting groups, N counting all of them; with fewer than two it is all of them |
| GroupSums.GatherExact | packages/recon/okwan_recon/engine.py:550-558 | the loop over share groups adds only their fits, none twice, and unless it stopped at two it has all fits of every group it could search and knows whether one was too full |
| GroupSums.GatheredIsFitting | packages/recon/okwan_recon/engine.py:539-558 | the gathered fits are the fitting groups of the unclaimed records: all of them when fewer than two and nothing was skipped |
| GroupSums.GroupSumIsForced | packages/recon/okwan_recon/engine.py:533-585 | a record is paired exactly when one fitting group exists and no share group was over the cap, with that group; it stays exactly when none exists and none was over the cap |
| Decisions.FuzzyIsForced | packages/recon/okwan_recon/engine.py:440-459 | a record is paired exactly when one viable record is unclaimed, with that one; it is ambiguous exactly when two or more are, all of them candidates; it stays exactly when none is; what else is unclaimed plays no part |
| Decisions.GroupRefIsForced | packages/recon/okwan_recon/engine.py:479-497 | paired with all the unclaimed records that carry the reference exactly when there are one to `max_members`; ambiguous among all of them exactly when there are more; it stays exactly when there is none |
| Decisions.ExactTakesFirst | packages/recon/okwan_recon/engine.py:350-361 | paired exactly when some unclaimed record carries the reference, with the first that does; never ambiguous |
| Decisions.GroupSumAsks | packages/recon/okwan_recon/engine.py:550-584 | ambiguous exactly when two or more groups fit or a share group is over the cap; the alternatives are different fitting groups, at least two when nothing was over the cap, and the candidates their members |
| Decisions.ViableIff | packages/recon/okwan_recon/engine.py:405-438 | when two records are viable under a Fuzzy rule: amounts that read and differ by at most the tolerance, one currency, phone numbers not known to be disjoint, no agreed field that both carry and that differs, and in time |
| Decisions.FittingIff | packages/recon/okwan_recon/engine.py:533-602 | when a group fits a record: one to `max_members` records, each with a readable amount in its currency and in time, alike in every shared field, summing to it within the tolerance |
| Decisions.CrowdedIff | packages/recon/okwan_recon/engine.py:546-554 | a share group is over the cap exactly when some record may join with more than `max_candidates` records alike in the shared fields |
| MatchFacts.ClaimIsSound | packages/recon/okwan_recon/engine.py:348-361 | whatever a rule claims was unclaimed, is admitted by the rule and is never empty |
| MatchFacts.MissIsSound | packages/recon/okwan_recon/engine.py:440-442 | a record is passed on only when nothing unclaimed answers it, alone or as a group |
| MatchFacts.SweepAccounts | packages/recon/okwan_recon/engine.py:348-362 | over one rule, each record of the one side goes to exactly one place and none of the other side is lost |
| MatchFacts.SweepKeepsAlone | packages/recon/okwan_recon/engine.py:348-362 | records passed on early stay unanswerable while later records claim theirs |
| MatchFacts.RunKeeps | packages/recon/okwan_recon/engine.py:701-711 | over any rule list: nothing lost or doubled, what is left only shrinks, and every rule is settled at the end, the ones the early break skipped included |
| MatchFacts.RunMade | packages/recon/okwan_recon/engine.py:701-711 | every pair of a run has the moment it was made at: some rule had come to some record of its one side, the pairs before it were all there were, and the pair is what the rule claimed on the records then unclaimed |
| Questions.RunAsked | packages/recon/okwan_recon/engine.py:701-711 | every ambiguity of a run has the moment it was asked at, the ambiguities before it being all there were |
| Questions.RunInOrder | packages/recon/okwan_recon/engine.py:348-362 | after any rules, what is left of either side is in the order it came in, so each rule takes its records in that order |
| MatchFacts.MomentHolds | packages/recon/okwan_recon/engine.py:348-362 | the records unclaimed at a moment are that side's input less what the pairs made and the questions asked until then hold |
| MatchFacts.MissesAreComplete | packages/recon/okwan_recon/engine.py:701-711 | no two records still unclaimed after all rules admit each other under any of them, and no group of leftovers sums to a leftover |
| MatchFacts.EveryRecordOnce | packages/recon/okwan_recon/engine.py:339-587 | each input record is matched, ambiguous or left over: exactly one of them, once |
| Appliers.BuildIndex | packages/recon/okwan_recon/engine.py:342-346 | under each key the index holds exactly the records with that key, in order |
| Appliers.FirstUnclaimed | packages/recon/okwan_recon/engine.py:353 | the first record of a bucket that is not consumed, if any |
| Appliers.Record | packages/recon/okwan_recon/engine.py:354-361 | recording a claim, an ambiguity or a miss changes result, consumed set and kept list as the decision says |
| Appliers.ApplyExact | packages/recon/okwan_recon/engine.py:339-362 | the loop over the left records does what the rule's decisions, taken one by one, do |
| Appliers.IsCandidate | packages/recon/okwan_recon/engine.py:405-438 | the chain of `continue`s keeps exactly the viable pairs: currency, amount within tolerance, identity, agreed fields, lag or window |
| Appliers.Candidates | packages/recon/okwan_recon/engine.py:398-438 | the inner loop collects every viable unclaimed record, in order |
| Appliers.ApplyFuzzy | packages/recon/okwan_recon/engine.py:379-461 | the loop matches a single candidate, reports several and consumes none of them, passes on a record with none |
| Appliers.ApplyGroupRef | packages/recon/okwan_recon/engine.py:464-499 | the loop claims a whole bucket up to `max_members`, from whichever side is the one side |
| Appliers.InTime | packages/recon/okwan_recon/engine.py:525-531 | lag in the declared direction, or a symmetric window that an absent timestamp passes |
| Matching.ZeroWindowIff | packages/recon/okwan_recon/engine.py:393-436 | without a lag, a Fuzzy rule takes two records for in time as its window declares, exactly unless the window is zero and they lie apart by up to a second |
| Matching.ZeroSumWindow | packages/recon/okwan_recon/engine.py:521-531 | without a lag, a GroupSum window of zero asks two known instants to be the same |
| Matching.ASecondApart | packages/recon/okwan_recon/engine.py:393 | two records a second apart, under windows of zero: in time for Fuzzy, not for GroupSum |
| Appliers.SumPool | packages/recon/okwan_recon/engine.py:539-545 | the pool is every unclaimed record the rule admits, in order |
| Appliers.ShareGroups | packages/recon/okwan_recon/engine.py:546-548 | groups by shared fields, in order of first appearance |
| Appliers.FindFits | packages/recon/okwan_recon/engine.py:550-558 | the loop over groups with its two early exits |
| Appliers.ApplyGroupSum | packages/recon/okwan_recon/engine.py:513-587 | the loop claims, reports or passes on as `Decide` says |
| Engine.ApplyRules | packages/recon/okwan_recon/engine.py:699-711 | the rule loop with its early break, and that its pairs are new and not yet compared |
| Engine.ReportMisses | packages/recon/okwan_recon/engine.py:713-719 | each side's leftovers split by what the other side read |
| Engine.ScoreDiscrepancies | packages/recon/okwan_recon/engine.py:619-651 | every pair ends with its discrepancy and the explanation of it, or with neither |
| Engine.JudgedIsAccounted | packages/recon/okwan_recon/engine.py:619-651 | so a pair has a difference exactly when its records say so, and an explanation only of a difference that is not zero |
| Engine.StatedCauses | packages/recon/okwan_recon/engine.py:671-675 | the causes that state an allowed figure for this gap, in declaration order |
| Engine.Match | packages/recon/okwan_recon/engine.py:689-722 | the whole of `match`: the result the rules define; every pair carries exactly the difference its records have at the amounts the declaration compares, if any, and the smallest and first explanation of it |
| Engine.NetDiscrepancy | packages/recon/okwan_recon/engine.py:144-158 | the loop over discrepant pairs sums every pair's discrepancy |
| Engine.Partition | packages/recon/okwan_recon/engine.py:689-722 | on either side each input row ends in exactly one of matched, ambiguous, unmatched, unverifiable, once, and no other row does |
| Engine.CompleteMisses | packages/recon/okwan_recon/engine.py:689-722 | no two records reported unclaimed could have been paired by any rule of the list, nor a group of them with one |
| Engine.BooksBalance | packages/recon/okwan_recon/engine.py:140-159 | over whole-number amounts in one currency, sum(left) - sum(right) is the net discrepancy plus what was not matched on the left less the same on the right |
| Engine.BooksInCurrencies | packages/recon/okwan_recon/engine.py:630-641 | over whole-number amounts in any currencies, sum(left) - sum(right) is the net discrepancy, plus the records of pairs whose sides show two different currencies, plus what was not matched, left less right |
| Engine.PairWasClaimed | packages/recon/okwan_recon/engine.py:699-711 | the k-th pair of a result was claimed on `avail`, which with the pairs before it and the ambiguities until then makes up that side's input |
| Engine.GroupPairsWereForced | packages/recon/okwan_recon/engine.py:559-572 | for a GroupSum pair: of the records unclaimed at that moment its members are the only fitting group, and no share group was over the cap |
| Engine.FuzzyPairsWereForced | packages/recon/okwan_recon/engine.py:444-459 | for a Fuzzy pair: of the records unclaimed at that moment its right record is the only viable one |
| Engine.RefGroupsAreWhole | packages/recon/okwan_recon/engine.py:483-497 | for a GroupRef pair: its members are all the records unclaimed at that moment that carry the reference, the left path read on the left record and the right path on the right one, at most `max_members` |
| Questions.ExactPairsTakeFirst | packages/recon/okwan_recon/engine.py:350-361 | an ExactRef pair carries one reference on both sides, and its right record is the first, in input order, of those unclaimed at that moment that carry it |
| Engine.GroupsAreSeveral | packages/recon/okwan_recon/engine.py:502-510 | one side of every pair is a single record, and the other a group exactly when several different records answer it |
| Questions.AmbiguityWasAsked | packages/recon/okwan_recon/engine.py:699-711 | the j-th ambiguity of a result was decided on `avail`, which with the pairs and ambiguities until then makes up that side's input |
| Questions.FuzzyQuestionsAreReal | packages/recon/okwan_recon/engine.py:444-451 | the candidates of a Fuzzy ambiguity are all the records unclaimed at that moment that were viable, and there are two or more |
| Questions.RefQuestionsAreReal | packages/recon/okwan_recon/engine.py:483-488 | the candidates of a GroupRef ambiguity are all the records unclaimed at that moment that carry the reference, more than `max_members` |
| Questions.SumQuestionsAreReal | packages/recon/okwan_recon/engine.py:573-584 | for a GroupSum ambiguity two or more groups of the records unclaimed at that moment fit, or a share group was over the cap; its alternatives are different fitting groups and its candidates their members |
| Questions.ExactNeverAsks | packages/recon/okwan_recon/engine.py:339-362 | no ambiguity comes from an ExactRef rule |
| Questions.LeftoversInOrder | packages/recon/okwan_recon/engine.py:713-719 | misses and unverifiable records of either side are in the order they came in |
| Engine.MissingIff | packages/recon/okwan_recon/engine.py:713-719 | a leftover of either side is a miss exactly when the other side states no coverage, or was not cut short and covers its date as the first rule with timestamps reads it on its own side; else it is unverifiable |
| Engine.GroupPairsBalance | packages/recon/okwan_recon/engine.py:619-641 | at the amounts its own rule matched on, a GroupSum pair of a result is outside the rule's tolerance exactly when its members share one non-summed value that misses by more; whole numbers or a single member are always compared, within it; and so it is reported wherever the declaration compares those amounts |
| Engine.FuzzyPairsBalance | packages/recon/okwan_recon/engine.py:379-461 | at the amounts its own rule matched on, a Fuzzy pair is always compared, within the rule's tolerance; and so it is reported wherever the declaration compares those amounts |
| Engine.TextPairIsMade | packages/recon/okwan_recon/engine.py:73-77 | from two batches of "500" and a deposit of 1000, tolerance 0, the engine makes the one pair and reports it 500 short |
| Scoring.TotalIsSum | packages/recon/okwan_recon/engine.py:593-602 | the total the search compares is the sum `value` reports for the same members |
| Scoring.PartyPlain | packages/recon/okwan_recon/engine.py:66-77 | over whole amounts in one currency, a party's value is the sum of its records, group or not |
| Scoring.ManyAmount | packages/recon/okwan_recon/engine.py:66-77 | the three branches of `value` on a matched group: its sum, its shared value, nothing |
| Scoring.NetIsDifference | packages/recon/okwan_recon/engine.py:144-158 | over pairs of whole amounts in one currency the net discrepancy is the difference of the matched sums |
| Differences.PartyReads | packages/recon/okwan_recon/engine.py:66-77 | what a side of a pair reads as: whole numbers at their sum, other values only when all are the same, at that value, whosever is taken |
| Differences.ScoreIff | packages/recon/okwan_recon/engine.py:630-641 | a pair differs by d exactly when both sides read, left less right is d, and they do not show two different currencies |
| Differences.ResolvedIff | packages/recon/okwan_recon/declaration.py:475-494 | the amounts compared are the declared ones or else those of the first rule that matches on amounts, by side |
| Differences.SumBeforeFuzzy | packages/recon/okwan_recon/declaration.py:477-494 | a GroupSum rule before a Fuzzy one: its amounts are compared, not the documented ones |
| Differences.ReportedIff | packages/recon/okwan_recon/engine.py:619-641 | the discrepancy of a pair, said of its records and the declaration alone |
| Differences.NetInCurrencies | packages/recon/okwan_recon/engine.py:144-158 | over pairs of whole amounts in any currencies, the net discrepancy and the pairs in two currencies are the difference of the matched sums |
| Rows.AsIntIs | packages/recon/okwan_recon/engine.py:365-376 | what an amount reads as: a decimal towards zero, a truth value as one or nought, text as it parses |
| Rows.SameValueIs | packages/recon/okwan_recon/engine.py:76-77 | the equality `value` compares members by: an equivalence, numbers by value across types, text only with the same text |
| Scoring.Balance | packages/recon/okwan_recon/engine.py:619-641 | the balance identity over any run of rules |
| Scoring.GroupSumDiscrepancy | packages/recon/okwan_recon/engine.py:630-641 | how every fitting group is compared: within tolerance when summed, at the shared value when only shared, not at all otherwise |
| Scoring.GroupSumToleranceIff | packages/recon/okwan_recon/engine.py:66-77 | a fitting group is reported outside its tolerance exactly when its members share one non-summed value that misses by more |
| Scoring.TextAmountsAreNotSummed | packages/recon/okwan_recon/engine.py:73-77 | two batches of "500" fit a deposit of 1000 with tolerance 0, and such a pair scores 500 short |
| Explaining.ComputeFigure | packages/recon/okwan_recon/declaration.py:369-381 | the loop sums the fields that carry something; no such field, or an unreadable one, means no figure |
| Explaining.CombinationsExact | packages/recon/okwan_recon/engine.py:676-677 | the combinations of a size are exactly the strictly increasing choices of that many causes |
| Explaining.CombinationsInOrder | packages/recon/okwan_recon/engine.py:677 | they come in declaration order, lexicographically |
| Explaining.OfSize | packages/recon/okwan_recon/engine.py:677-680 | the first combination of a size that adds up to the gap, or none of that size does |
| Explaining.Explain | packages/recon/okwan_recon/engine.py:668-681 | a combination of one to four causes whose magnitudes sum exactly to the gap, the smallest, and first at its size; nothing exactly when there is none |
| Explaining.ExplanationIsUnique | packages/recon/okwan_recon/engine.py:659-681 | that description leaves one answer |
| Explaining.FigureIff | packages/recon/okwan_recon/declaration.py:369-381 | a cause states a figure exactly when some field carries something and all that do read, and it is their sum |
| Explaining.StatedFrom | packages/recon/okwan_recon/engine.py:671-675 | what is stated is one part for each cause with a non-zero figure against a gap of its sign, in declaration order, and no other |
| Explaining.ExplanationMeans | packages/recon/okwan_recon/engine.py:659-681 | an explanation is at most four parts that different causes state, magnitudes summing to the gap; no fewer do, of as few it is the first in declaration order, and it is empty only when none do |
| Coverages.ReadsIsEvidence | packages/recon/okwan_recon/coverage.py:32-69 | a side vouches for a date exactly when it was not cut short and its span covers the date |
| Coverages.SplitUnread | packages/recon/okwan_recon/engine.py:762-780 | the loop's two lists, without coverage all misses |
| Coverages.SplitParts | packages/recon/okwan_recon/engine.py:774-780 | each leftover goes one way and none is lost |
| Coverages.SplitElems | packages/recon/okwan_recon/engine.py:774-780 | which way is decided by the evidence alone |
| Across.Verdicts | packages/recon/okwan_recon/across.py:356-390 | the dict filled by four loops answers for each row as the last writer says |
| Across.Fold | packages/recon/okwan_recon/across.py:393-409 | one verdict per ledger order, in order, from what each rail said |
| AcrossFacts.UncollectedIff | packages/recon/okwan_recon/across.py:412-430 | an order is uncollected exactly when every rail's own match reported it as a miss |
| AcrossFacts.UncollectedIsEvidence | packages/recon/okwan_recon/across.py:425-430 | then every rail that states its coverage was read to the end over a span holding the order's date as its first rule with timestamps reads it on the left, and under any of its rules, whichever side the rule groups, nothing it left unclaimed answers the order, alone or in a group |
| AcrossFacts.UncollectedRailWasReadWhole | packages/recon/okwan_recon/fetch.py:82-127 | and the rows that rail was matched on are its whole upstream |
| AcrossFacts.OneVerdictPerRail | packages/recon/okwan_recon/across.py:356-390 | under any rules, an order gets one verdict from each rail, which says which of paired, ambiguous, unverifiable or unmatched it is, the four loops never overwriting one another; it gets none exactly when it was matched in a group of several |
| AcrossFacts.OrdersStayAlone | packages/recon/okwan_recon/engine.py:464-511 | a declaration whose rules all take left records one at a time never matches one in a group |
| AcrossFacts.EveryRailSpeaks | packages/recon/okwan_recon/across.py:393-409 | with members of ExactRef and Fuzzy rules, or any that take orders one at a time, every order gets exactly one verdict from every rail |
| AcrossFacts.UnverifiableIff | packages/recon/okwan_recon/across.py:412-430 | under any rules, an order is unverifiable exactly when no rail has it in a pair of its own and some rail left it ambiguous, unread, or matched in a group |
| AcrossFacts.BatchesAreUnverifiable | packages/recon/okwan_recon/across.py:368-409 | two batches one deposit pays together: each matched, without a verdict from its rail, and reported unverifiable |
| VerdictFacts.PaidOnExists | packages/recon/okwan_recon/across.py:368-376 | every order has the list of the pairs its rails made of it alone, one for each rail that made one |
| VerdictFacts.TakingsAre | packages/recon/okwan_recon/across.py:406-414 | the rails `_decide` counts as matched are exactly those, each with what its pair's right side reads |
| VerdictFacts.VerdictIff | packages/recon/okwan_recon/across.py:412-456 | collected exactly when one rail paired the order; with more, collected twice exactly when every one took about the total in the order's currency, split exactly when not every one did but together they took about that, inconsistent exactly when neither, be it that something does not read |
| VerdictFacts.CollectedIff | packages/recon/okwan_recon/across.py:211-216 | what is reported collected is what those pairs' right sides took together; nothing when there is none or one does not read |
| AcrossFacts.NeverBothTwiceAndSplit | packages/recon/okwan_recon/across.py:446-452 | with 3 * bps < 10000 and a non-zero total, amounts on two or more rails are never both each near the total and together near it |
| AcrossFacts.ThirdIsSharp | packages/recon/okwan_recon/across.py:446-452 | from a third of the total on, some amounts are both: the condition is necessary and sufficient |
| AcrossFacts.OvercollectedBound | packages/recon/okwan_recon/across.py:245-249 | an order collected twice on n rails was overcollected by at least ((n-1)*10000 - n*bps)/10000 of its total |
| Fetch.FetchSide | packages/recon/okwan_recon/fetch.py:82-127 | wherever the paging loop ends, it returns what its function says |
| Fetch.FetchEndsIff | packages/recon/okwan_recon/fetch.py:87-113 | the loop, request by request, ends exactly unless an operation without a cursor answers an empty page, says there is more, and the cap is not zero; it then ends within one request more than there are pages, or than the cap |
| Fetch.EmptyPageNeverEnds | packages/recon/okwan_recon/fetch.py:87-113 | such an operation: however many requests, nothing has been read |
| Fetch.FetchIsSound | packages/recon/okwan_recon/fetch.py:108-127 | wherever the loop ends, over any finite upstream, empty pages included, not truncated means the rows are all there are; and unless a page that continues was asked for without a cursor they are its first `cap` |
| Fetch.TruncatedIff | packages/recon/okwan_recon/fetch.py:105-117 | a paged read is called truncated exactly when upstream has more rows than the cap or the cap was full before the last page; a bare list when it fills the cap; and always without a cursor when the page continues |
| Fetch.FalseAlarmIff | packages/recon/okwan_recon/fetch.py:111-117 | it is called truncated with everything read exactly when the rows fill the cap exactly and empty pages follow |
| Fetch.EmptyPageAlarms | packages/recon/okwan_recon/fetch.py:111-117 | a page that fills the cap and an empty one after it: all rows read, and called truncated |
| Fetch.LonePage | packages/recon/okwan_recon/fetch.py:108-117 | a page without a cursor, or one that says there is no more, is the last |
| Fetch.WithoutCursor | packages/recon/okwan_recon/fetch.py:92-113 | wherever that loop ends, an operation without a cursor whose first page continues is reported truncated, and returns the start of the upstream exactly when that page fills the cap |
| Fetch.PageOneTwice | packages/recon/okwan_recon/fetch.py:92-113 | two pages of a row each and a cap of two: the first row comes twice, the second not at all |
| Calendar.NthWeekdayIsNth | packages/recon/okwan_recon/calendar.py:24-30 | the day has the weekday and lies in the month's n-th seven days, or its last seven |
| Calendar.HolidaysWellSpaced | packages/recon/okwan_recon/calendar.py:42-57 | every observed holiday is a weekday inside its own year, and no two are fewer than four days apart |
| Calendar.LookupIsComplete | packages/recon/okwan_recon/calendar.py:60-61 | looking a day up under its own year misses no holiday of any year |
| Calendar.HolidayIff | packages/recon/okwan_recon/calendar.py:33-57 | which days are holidays, over month, day and weekday: a fixed date on a weekday, the Monday after one on a Sunday, none for a Saturday, Juneteenth since 2022, and the six that float |
| Calendar.BusinessDayIff | packages/recon/okwan_recon/calendar.py:60-61 | a business day is a weekday that is none of those |
| Calendar.HasDate | packages/recon/okwan_recon/calendar.py:60-61 | every day has a month and a day of its own year |
| Calendar.OneDate | packages/recon/okwan_recon/calendar.py:60-61 | and only one |
| Calendar.KnownDays | packages/recon/okwan_recon/calendar.py:24-39 | the weekdays fall as they do: 1 January 2024 a Monday, 4 July 2026 a Saturday |
| Calendar.NoFourIdle | packages/recon/okwan_recon/calendar.py:60-61 | any four days in a row hold a business day |
| Calendar.BusinessDaysAfter | packages/recon/okwan_recon/calendar.py:64-77 | how many business days lie after the first date up to and including the second, nothing when reversed |
| Calendar.CountOpen | packages/recon/okwan_recon/calendar.py:73-77 | the day-by-day loop counts the set of open days |
| Calendar.DaysAfterSplits | packages/recon/okwan_recon/calendar.py:64-77 | additive over any split, zero over an empty span, absent exactly when reversed |
| Calendar.SpanBound | packages/recon/okwan_recon/calendar.py:64-77 | n business days span at most 4n + 3 calendar days |
| Declaration.ComputeLagDays | packages/recon/okwan_recon/declaration.py:92-102 | counted in the declared direction, nothing when a date is missing |
| Declaration.LagIsOneWayAndBounded | packages/recon/okwan_recon/declaration.py:104-106 | a lag never admits a pair running backwards or more than 4 * max_days + 3 days apart |
| Declaration.LagAdmitsIff | packages/recon/okwan_recon/declaration.py:92-106 | a lag admits two dates exactly when both are known, run in the declared direction and are `min_days` to `max_days` business days apart, the later one included |
| Limits.WaitMeans | apps/api/okwan_api/ratelimit.py:81-93 | an attempt has to wait exactly when a rule with a positive window refuses it |
| Limits.NoWindowNoLimit | apps/api/okwan_api/ratelimit.py:86-93 | a rule without a window admits an attempt past its limit |
| Limits.WaitIsExact | apps/api/okwan_api/ratelimit.py:83-93 | it is refused until the wait has passed and admitted from then on: the last refusing window decides |
| Limits.WaitIsEarliestIff | apps/api/okwan_api/ratelimit.py:75-90 | the wait is that of the first refusing window, as documented, exactly when all refusing windows reset together |
| Limits.EarliestIsTooSoon | apps/api/okwan_api/ratelimit.py:75-90 | two spent windows, of a minute and of a quarter of an hour: the wait is the quarter, and after the minute the attempt would still be refused |
| Limits.CountedAt | apps/api/okwan_api/ratelimit.py:94-95 | an admitted attempt counts once on each checked key and on no other |
| Limits.WindowCounts | apps/api/okwan_api/ratelimit.py:84-95 | after any run, a key's entry is the cost admitted in its open window, within the limit |
| Limits.WindowOpensAt | apps/api/okwan_api/ratelimit.py:84-95 | an open window began with an admission, and every admission since came within one window of it |
| Limits.BlocksIff | apps/api/okwan_api/ratelimit.py:84-90 | a rule with a window refuses exactly when what its key was admitted for since the window opened leaves no room for the cost |
| Limits.TwiceTheLimit | apps/api/okwan_api/ratelimit.py:72-98 | after any run, a key was admitted for at most twice its limit in any interval shorter than the window |
| Limits.TwiceTheLimitIsReached | apps/api/okwan_api/ratelimit.py:86-90 | and twice is reached, in an interval as short as you like |
| Limits.CountedInStep | apps/api/okwan_api/ratelimit.py:94-95 | counting an attempt that nothing refuses keeps every key's run legal |
| Limits.Limiter.Assess | apps/api/okwan_api/ratelimit.py:81-91 | the first loop: each check's window, and the wait |
| Limits.Limiter.Count | apps/api/okwan_api/ratelimit.py:94-95 | the second loop: the table after counting |
| Limits.Limiter.Take | apps/api/okwan_api/ratelimit.py:72-98 | admitted exactly when every rule with a window has room, by the log of its key since the window opened; then all keys are counted, else nothing changes; the table never exceeds MAX_KEYS afterwards; a refusal names the exact wait |
| Limits.TryEach | apps/api/okwan_api/ratelimit.py:72-98 | on an empty table, single attempts inside one window are admitted up to the limit, all of them, and every further one is refused |
| Limits.Limiter.Sweep | apps/api/okwan_api/ratelimit.py:100-109 | drops what expired, then the older half, and leaves at most MAX_KEYS of up to twice as many |
| Limits.SweepAnswers | apps/api/okwan_api/ratelimit.py:100-116 | dropping what expired changes no answer for a rule in the sweep's table; for a rule missing from it, it forgets every attempt |
| Limits.UnlockForgotten | apps/api/okwan_api/ratelimit.py:63-116 | a spent unlock window: refused, and after a sweep admitted |
| Limits.NewerHalf | apps/api/okwan_api/ratelimit.py:107-109 | keeps the half with nothing dropped newer than what is kept |
| Throttle.TokensInRange | packages/core/okwan_core/client.py:37-49 | after any run the tokens lie in [0, burst] and the stamp is never ahead of the last completion |
| Throttle.AcquireCosts | packages/core/okwan_core/client.py:38-49 | an acquire costs a token, and the time it spans is worth at most twice the rate |
| Throttle.Throughput | packages/core/okwan_core/client.py:29-49 | over any run, at most burst + 1 + 2 * rate * T acquires complete in an interval of length T |
| Throttle.ThroughputBySleeps | packages/core/okwan_core/client.py:38-49 | over any run, at most burst + rate * T acquires complete in an interval of length T, and one more for each of them that slept |
| Throttle.PlainBoundHolds | packages/core/okwan_core/client.py:44-49 | when no acquire that completes in an interval found less than a token, at most burst + rate * T do |
| Throttle.BusyExceeds | packages/core/okwan_core/client.py:43-49 | at any rate and any burst of at least one, a legal run completes burst + 2n acquires in the time of n tokens |
| Throttle.PlainBoundFails | packages/core/okwan_core/client.py:43-49 | every profile, without a burst too, has a legal run that exceeds burst + rate * T |
| Throttle.TokenBucket.Acquire | packages/core/okwan_core/client.py:37-49 | each acquire extends the run by one legal call and leaves the fields as the run says |
| Tenants.ChainShape | packages/vault/okwan_vault/authz.py:27-37 | a tenant's chain ends at its root and is as long as the tenant is deep, plus itself |
| Tenants.UpMeetsDown | packages/vault/okwan_vault/authz.py:40-48 | the upward walk agrees with the downward fixpoint, for every actor, exactly when the target is at most MAX_DEPTH deep |
| Tenants.RootIsAbove | packages/vault/okwan_vault/store.py:338-347 | the end of a tenant's chain is the one root whose subtree holds it, at any depth |
| Tenants.PayerIsTheRoot | packages/vault/okwan_vault/usage.py:71-85 | at most MAX_DEPTH deep the payer is that root |
| Tenants.PayerIsARootIff | packages/vault/okwan_vault/usage.py:79-85 | the payer has no parent, and is the tenant's root, exactly at that depth |
| Tenants.DeepLine | packages/vault/okwan_vault/authz.py:15-37 | a store built by `create_tenant` alone, in which a root is refused a tenant under it and an account with a parent pays for that tenant |
| Tenants.BumpRaises | packages/vault/okwan_vault/store.py:334-354 | one request raises a group's usage by one when it is in the group and the period, and not otherwise |
| Tenants.EachRequestBillsOneRoot | packages/vault/okwan_vault/usage.py:71-98 | a request by a tenant of any depth raises the usage of the root above it by one and of no other root |
| Tenants.AllowanceIsExact | packages/vault/okwan_vault/usage.py:88-98 | over any run of requests gated by the quota, a root's usage is what it had plus what its own subtree asked for from as deep as the walk reaches, up to its plan's limit, plus no more than its deep requests that passed another account's gate; exactly the first without any such, exactly both without a limit |
| Tenants.DeepRequest | packages/vault/okwan_vault/usage.py:88-98 | a deeper request is gated by the plan and usage of an account that has a parent; if that allows it, the true root goes up by one, whatever the root's own limit |
| Tenants.AllowanceBound | packages/vault/okwan_vault/usage.py:88-98 | a root passes its allowance by no more than the number of its deep requests, and has exactly what it asked for up to its limit when it has none |
| Tenants.MemoryStore.CreateTenant | packages/vault/okwan_vault/store.py:188-195 | an unknown parent is refused and changes nothing; otherwise the store stays a forest |
| Tenants.MemoryStore.RecordRequest | packages/vault/okwan_vault/store.py:334-336 | one bucket goes up by one |
| Tenants.MemoryStore.Ancestors | packages/vault/okwan_vault/authz.py:27-37 | the loop returns the first MAX_DEPTH of the chain above the tenant |
| Tenants.MemoryStore.MayAct | packages/vault/okwan_vault/authz.py:40-48 | itself, or among those ancestors |
| Tenants.MemoryStore.BillingRoot | packages/vault/okwan_vault/usage.py:79-85 | the last of that walk |
| Tenants.MemoryStore.Widen | packages/vault/okwan_vault/store.py:342-346 | one pass stays inside the subtree, and a pass that changes nothing found it closed |
| Tenants.MemoryStore.FindSubtree | packages/vault/okwan_vault/store.py:338-347 | the fixpoint ends and is exactly the tenants whose chain passes through the root |
| Tenants.MemoryStore.UsageOf | packages/vault/okwan_vault/store.py:349-354 | the requests of the subtree's buckets in the period, summed |
| Tenants.MemoryStore.QuotaFor | packages/vault/okwan_vault/usage.py:88-98 | the payer's plan limit and its subtree's usage |
| Tenants.MemoryStore.DeleteTenant | packages/vault/okwan_vault/store.py:206-230 | exactly the subtree goes, with its usage, its plans and every entry of the owned tables, accounts and their pending sign-ups; what is left is a forest |
| Tenants.NothingLeftBehind | packages/vault/okwan_vault/store.py:212-229 | no entry left has a deleted owner, and a sign-up goes exactly with the account under its address |
| Runs.NewestCount | packages/vault/okwan_vault/store.py:386-392 | of any history there are as many newest as asked for, or all |
| Runs.KeepingTheNewestSuffices | packages/vault/okwan_vault/store.py:386-392 | dropping runs that are not among the newest n does not change the newest n |
| Runs.AddKeepsPruned | packages/vault/okwan_vault/store.py:384-392 | pruning the one group on insert keeps every group at exactly its newest RUNS_KEPT of the full history |
| Runs.ListingAgrees | packages/vault/okwan_vault/store.py:395-404 | a listing of at most RUNS_KEPT, with or without a name, is that of an unpruned store |
| Runs.ListingUnique | packages/vault/okwan_vault/store.py:402 | newest first by (finished_at, id) leaves one order |
| Runs.HeldCount | packages/vault/okwan_vault/store.py:385-392 | a group holds as many runs as it ever had, up to RUNS_KEPT |
| Runs.SortNewestFirst | packages/vault/okwan_vault/store.py:386-390 | the sort, strictly descending and complete |
| Runs.RunStore.AddRun | packages/vault/okwan_vault/store.py:372-393 | an unknown tenant is refused and changes nothing; otherwise the history grows by the run, the store stays pruned to it, and only runs of its own tenant, kind and name may go, each with RUNS_KEPT newer ones held |
| Runs.RunStore.Prune | packages/vault/okwan_vault/store.py:385-392 | only the run's own group is cut, to its newest RUNS_KEPT |
| Runs.RunStore.ListRuns | packages/vault/okwan_vault/store.py:395-404 | the tenant's own runs, of the name when one is given, newest first and at most `limit`; a run is missing only when `limit` newer such runs are there, for limits up to RUNS_KEPT of the full history |
| Runs.NewestIsListing | packages/vault/okwan_vault/store.py:398-404 | so said of tenant, name, finishing time and id alone |
| Runs.PrunedOnlyItsGroup | packages/vault/okwan_vault/store.py:385-392 | pruning after an insert takes out only runs of that tenant, kind and name with RUNS_KEPT newer ones held |
| Runs.ListAroundAdd | packages/vault/okwan_vault/store.py:372-404 | adding a run of one tenant leaves every listing of another as it was |
| Money.PrintedReads | apps/dashboard/lib/money.ts:45-53 | what is printed reads back as the same digits at the currency's exponent |
| Money.RoundTrip | packages/core/okwan_core/currency.py:34-58 | printing minor units and converting the string back gives the amount, for every currency and every amount below 10^28; for larger ones the conversion raises |
| Money.RaisesIff | packages/core/okwan_core/currency.py:57-58 | it raises exactly from half a minor unit below 10^28 on |
| Money.ConvertRounds | packages/core/okwan_core/currency.py:57-58 | the amount times its factor to 28 digits, halves to even, then to whole minor units, halves away from zero, with its sign |
| Money.WrittenReads | packages/core/okwan_core/currency.py:51-56 | an optional sign, digits and an optional point with more, one digit at least, read as the number they write |
| Money.ReadsWritten | packages/core/okwan_core/currency.py:51-56 | and no other text reads |
| Money.MinusNegates | packages/core/okwan_core/currency.py:51-58 | a minus sign in front of a string negates its conversion, keeps an exception one, and makes a string that has a sign already unreadable |
| Money.RoundingIsNearIff | packages/core/okwan_core/currency.py:57-58 | where it does not raise, the result is within half a minor unit of the exact value exactly unless the rounding to 28 digits goes up onto a half |
| Money.RoundingIsNear | packages/core/okwan_core/currency.py:57-58 | with at most 28 digits in the product it never raises and is always within half a minor unit |
| Money.HalfACentShort | packages/core/okwan_core/currency.py:57-58 | 0.004 and 28 nines or more, less than half a cent, converts to a cent |
| Money.RoundingIsMonotone | packages/core/okwan_core/currency.py:57-58 | both roundings included, a larger decimal, at whatever precision, never converts to fewer minor units, where neither raises |
| Paging.Base64RoundTrip | packages/recon/okwan_recon/paging.py:50-63 | the padding stripped from an encoding is restored from its length, and decoding undoes encoding (section 5 of RFC 4648) |
| Paging.CursorRoundTrip | packages/recon/okwan_recon/paging.py:50-63 | a cursor reads back as the offset, fingerprint and view it was cut with, and is never blank |
| Paging.CursorRefusedIff | packages/recon/okwan_recon/paging.py:77-92 | a cursor the code wrote is refused exactly when it carries another fingerprint or another view; any cursor, unreadable ones included, exactly when it reads as no offset into this fingerprint and view |
| Paging.PageFrom | packages/recon/okwan_recon/paging.py:75-99 | a request resuming at an offset gets the rows from there up to its limit, and a cursor exactly when rows remain |
| Paging.PageSize | packages/recon/okwan_recon/paging.py:75-99 | that is as many rows as asked for, at least one and at most MAX_ROWS, or all that remain |
| Paging.FollowingIsComplete | packages/recon/okwan_recon/paging.py:66-99 | on an unchanged result, with any limits, no request is refused, the rows got are always the first of the result, and the walk ends with all of them in order, each once |

## Left out

- Confidence, evidence, reason strings and display order: they do not decide who is claimed or what is owed.
- `_describe_groups`: it only copies figures into a group's summary for display.
- The counts and rates of `ReconResult.summary` and `AcrossResult.summary` other than the net discrepancy and the overcollected amount: each follows from the lists.
- `dig` and `put` on arbitrary objects: a row gives the value at each path directly, and a group on one side is its list of members.
- Parsing timestamps (`_as_dt`) and converting timezones (`as_date`): a row gives the instant, in microseconds, and the calendar day in each zone.
- Case folding, stripping and upper-casing: a reference carries its exact and its folded form, a currency its stored and its upper-cased form; `Money` takes an upper-cased code.
- `MSISDN.candidates`: a row gives the set of phone numbers it may stand for.
- Amounts that are not a number, and infinite ones, where `int()` raises out of the engine.
- The declaration's own validation (bounds on lags, members and candidates): the model allows every value.
- Dates after year 9999, where the calendar runs out.
- The fits of the subset search are kept as sets of rows and listed in the pool's order when claimed or reported; the search's own index lists are not modelled.
- The connector behind `fetch_side`: upstream is a finite list of pages cut in any way, so a page size that changes with the rows in hand is one such cut.
- Fetch.FetchSide: requires the loop to end, in the exact terms of Fetch.FetchEndsIff, because a method here has to.
- Coverage's clamped horizon: it only changes a reason string.
- Limits.TwiceTheLimit: speaks of a key between sweeps, because a sweep forgets live windows of rules missing from its table and the older half of an over-full one; the log of a dropped key starts again.
- Limits.Limiter.Take: requires rule names to mean one rule each and a clock that does not run backwards, as the rule constants and the monotonic clock give.
- The limiter's reading of the client's address and its HTTP errors: I/O around the table.
- Throttle: time is real-valued and acquires are made one after another, as the lock makes them; floating-point rounding is not modelled.
- Checking a quota and recording the request are separate calls in the API: the allowance lemmas speak of requests handled one at a time.
- Tenants.MemoryStore.DeleteTenant: the owned tables are one map from a table and a key to the owner, because their contents do not matter here; the tables deletion does not touch (second factors, operator grants and log, last use of a session) are not modelled.
- The rows and summary a run carries, and how it is served alone: a run is its id, tenant, kind, name and finishing time.
- Decimals beyond the exponent range of `Decimal`, about a million digits after the point.
- Exponent notation, blanks and underscores in a decimal string: only plain notation is read.
- JSON and SHA-256: a lossless codec and a function of the rows; malformed base64 is refused, where the library skips foreign characters.
- DuckDB views, PostgresStore, connectors, retries, routes, mail, billing and the user interfaces: I/O and glue.
