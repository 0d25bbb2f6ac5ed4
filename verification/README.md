# DarkFinances: verified model of the money paths

This project models the parts of DarkFinances that decide where money goes, and proves what they
promise: matching repayments to fronted charges, reading and writing statements, merging imports,
rate limiting, pay-off and balance projections, splitting group expenses, keeping identities
apart, and gating vulnerable dependencies.

Check everything with `dafny verify dfyconfig.toml` (Dafny 4.11).

## Conventions

- Money is whole cents, as the code's own conversions require (finance-dashboard/lib/domain/money.js);
  the safe-integer limits of those conversions are not modelled. `Payoff` (dollars) and `DebtSplit`
  (slices of a cent) use exact reals where the code uses doubles.
- Dates and ids that the code compares as strings are integers: the rank their order gives them.
- An error that the code throws is a `Result` or `Option` value, with one constructor for each
  distinguishable cause.
- Code that updates variables is a method proved against a function, and the theorems are about
  that function, in terms of its inputs: dates and ids, calls and times, cells and characters. The three stateful objects (the suggestion run with its charges, the shared
  rate-limit map, the identity registry) are classes.
- `Allocation` and `Reservation` identify a charge by its ledger transaction id, a primary key;
  `Reservation.SharedIdEscapesReservation` shows a run that books without limit when two charges
  share one.
- The language's stable sort is the insertion sort of `StableSort`, proved to order, to permute and
  to keep ties in order, except in `Trends`, where any order by date is allowed.

## What is proved

- **Repayments** (`SubsetSearch`, `Allocation`, `AllocationOutcome`, `Reservation`). The combination
  search is complete and returns the first fit in dictionary order. Whatever the order the charges
  are listed in, the oldest by date and id are paid first. A combination settles every charge in it, because
  the stages before it failed completely. In every branch the matched total is the most possible,
  less at most the tolerance. Over any run of inflows no charge is booked beyond what it is worth.
- **Statements** (`Csv`, `MoneyText`, `VenmoMerge`). Printing then parsing a table gives it back
  exactly when no cell hides a bare carriage return, and the line ends of any system read alike. The
  amount parser accepts exactly its grammar
  and undoes the digest's printer. After any run of imports each person's entries are those of
  each event's latest import.
- **Rate limits** (`RateLimiter`, `RateWindows`). The history of calls decides: the first of a window
  opens it, the first `max` pass, and it ends on time whatever is rejected. Sweeping is invisible. One key passes at most 2 * max - 1
  requests in any interval of one window, and that bound is met.
- **Projections** (`Payoff`, `DatedSums`, `Forecast`, `Trends`). An easier debt never costs more,
  and the months are the least solution of the amortisation formula, exactly when 600 payments
  are enough. Grouped and single-pass balances equal plain prefix sums.
- **Consistency** (`DebtSplit`, `IdentityRegistry`, `VulnerabilityGate`). Two members' views agree,
  and a view adds up to its owner's balance; acceptance of identities does not depend on order; a
  passing gate is clean in production exactly when no exception can be read as a production
  finding.

Where the code and its comments differ, the model follows the code:

- An inflow with nothing outstanding is called a person-level repayment in the comment above
  `allocateInflow`; the code reports `over` for it above one dollar and `person` only up to one
  dollar (finance-dashboard/dataModule.js:2447-2448). `Allocation.KindMeans` states it.
- The CSV printer quotes for a quote, a comma or a line feed but not for a carriage return
  (finance-dashboard/server.js:1860), which RFC 4180, section 2, also asks to be quoted.
  `Csv.RoundTripsExactly` gives the exact condition and `Csv.BareCarriageReturnSplits` an input.
- A finding key joins five fields with a bar that is not escaped, so an exception whose fields hold
  bars can let a production finding through. `VulnerabilityGate.BarsConfuseScopes` gives such an
  exception and the reports that pass with it. `VulnerabilityGate.PassingIsCleanExactly` gives the
  exact condition: the text `package|scope|node` of no exception holds a production scope between
  two bars. A bar anywhere in an exception already lets some run pass without finding what is
  excepted (`VulnerabilityGate.PassingMatchesExactly`).
- A debt that 600 payments do not pay off is reported, with a payoff date, as taking 600 months.
  `Payoff.CapHidesADebt` gives such a debt and `Payoff.MonthsAreTheFirstPaidOff` the exact
  condition: the amortisation formula at 600 months, or 600 payments when there is no interest,
  leaves more than half a cent.

## Model

| member | source | states |
|---|---|---|
| SubsetSearch.FindSubsetCents | finance-dashboard/dataModule.js:2456-2466 | the loop inside the recursion computes the depth-first search, ending because the number still to choose falls |
| SubsetSearch.FindSubset | finance-dashboard/dataModule.js:2456-2466 | whatever the search returns is a choice of k increasing positions within the tolerance |
| SubsetSearch.SearchBelow | finance-dashboard/dataModule.js:2461-2465 | below any node: every fitting continuation implies an answer, and the answer comes first in dictionary order |
| SubsetSearch.FindSubsetFindsFirst | finance-dashboard/dataModule.js:2456-2466 | null exactly when no k increasing positions fit; otherwise the lexicographically first choice that does |
| Allocation.PoolIsOpenOldestFirst | finance-dashboard/dataModule.js:2400-2404 | the pool is exactly the charges with something remaining, with multiplicity, ordered by date and then id |
| Allocation.FindSingle | finance-dashboard/dataModule.js:2409-2410 | the first charge within the tolerance, or none is |
| Allocation.FindComboIsExhaustive | finance-dashboard/dataModule.js:2418-2419 | no combination is returned only when no pair and no triple fits; a triple only when no pair fits |
| Allocation.ProperPartsFallShort | finance-dashboard/dataModule.js:2409-2419 | when no smaller combination fits, every proper prefix of a fitting one is below the amount by more than the tolerance |
| Allocation.CombinationBranch | finance-dashboard/dataModule.js:2417-2433 | the combination is the first fitting pair, or triple once all pairs failed; each charge is paid, all but the last in full, the last short by at most the tolerance |
| Allocation.GreedyBranch | finance-dashboard/dataModule.js:2435-2446 | otherwise an oldest-first prefix is paid, only its last charge perhaps in part, reaching min(inflow, outstanding) exactly |
| Allocation.PlanIsSound | finance-dashboard/dataModule.js:2398-2455 | in every branch: distinct charges, each paid a positive amount within its remaining, total within the tolerance of min(inflow, outstanding) and never above it |
| Allocation.KindMeans | finance-dashboard/dataModule.js:2409-2448 | each reported kind, if and only if, in terms of the charges and the amount alone |
| AllocationOutcome.ExactPaysTheOldest | finance-dashboard/dataModule.js:2400-2416 | from the charges alone: exact if and only if some outstanding charge is within a dollar or a fiftieth of the amount, and then the oldest such by date and id is paid the lesser of the two |
| AllocationOutcome.SubsetSettlesTheFirst | finance-dashboard/dataModule.js:2417-2433 | otherwise subset if and only if two or three outstanding charges are so together; a pair is preferred, and the first combination in dictionary order of (date, id) is paid, all but its last in full |
| AllocationOutcome.GreedyPaysOldestFirst | finance-dashboard/dataModule.js:2434-2455 | otherwise whatever is paid, every older outstanding charge is paid in full before it; as much is matched as there is; each kind, if and only if |
| Allocation.AllocateInflow | finance-dashboard/dataModule.js:2398-2455 | the three stages with their loops compute the specified outcome, for any amount |
| Allocation.PayCombination | finance-dashboard/dataModule.js:2421-2429 | the spending loop over a combination pays in order until the amount is spent |
| Allocation.PayOldestFirst | finance-dashboard/dataModule.js:2436-2445 | the greedy loop, with its early exit, pays the pool in order until the amount is spent |
| Allocation.AllocationIsSound | finance-dashboard/dataModule.js:2398-2455 | the same about the reported outcome: allocations are covered by open charges, no charge twice, matched is their sum, within the tolerance of the cap, and the cap itself in the greedy branch |
| Reservation.IndexLinks | finance-dashboard/dataModule.js:2546-2560 | the loop over links gives each expense its trusted cents and collects the linked inflows |
| Reservation.SuggestionRun.NetAgainstLinks | finance-dashboard/dataModule.js:2545-2567 | every charge's remaining becomes what links leave of it, never below zero |
| Reservation.SuggestionRun.ReserveFor | finance-dashboard/dataModule.js:2582-2586 | allocations are subtracted from the charges the index gives, and nothing else changes |
| Reservation.SuggestionRun.Consider | finance-dashboard/dataModule.js:2573-2602 | one inflow is skipped, or allocated, reserved and recorded, exactly as specified |
| Reservation.SuggestionRun.ConsiderAll | finance-dashboard/dataModule.js:2573-2602 | the run folds that step over the inflows, each seeing what earlier ones reserved |
| Reservation.ReserveSubtracts | finance-dashboard/dataModule.js:2582-2586 | for sound allocations the clamp at zero never fires: each charge loses exactly what it was given |
| Reservation.RunBalances | finance-dashboard/dataModule.js:2572-2602 | over any run of positive inflows, initial remaining equals suggested plus final remaining for every charge, none negative |
| Reservation.NoDoubleBooking | finance-dashboard/dataModule.js:2545-2602 | the trusted cents linked to a charge plus those suggested never exceed the larger of the charge and what was already linked; what remains is the charge less both |
| Reservation.SuggestionsAreFaithful | finance-dashboard/dataModule.js:2573-2602 | every suggestion's inflow was neither linked nor dismissed, its person owes more than half a dollar, and matched plus remainder is the inflow |
| Reservation.EligibleInflowsAreSuggested | finance-dashboard/dataModule.js:2573-2602 | each inflow of a run adds exactly one suggestion, its own, if and only if no link names it, it is not dismissed, its person owes over half a dollar, and it is not both over and more than ten dollars and a fifth above the debt; otherwise nothing changes |
| Reservation.SharedIdEscapesReservation | finance-dashboard/dataModule.js:2573-2602 | a run in which two charges share an id: any number of payments is matched in full against them, since every reservation lands on the later one |
| RateLimiter.SharedLimiter.Admit | finance-dashboard/server.js:363-397 | one request updates the shared map and is accepted or rejected as specified, sweeping when the map is large |
| RateLimiter.SharedLimiter.Sweep | finance-dashboard/server.js:378-380 | the sweep removes exactly the expired buckets |
| RateWindows.WindowDecides | finance-dashboard/server.js:373-396 | in the window a call opens, a call passes if and only if fewer than max were counted before it, passed or not; a rejected one is told the least whole seconds that last until the window ends, windowMs after it opened |
| RateWindows.CallsHaveWindows | finance-dashboard/server.js:374-377 | every counted call opens a window or falls in one still running |
| RateWindows.NextWindowPasses | finance-dashboard/server.js:375 | the first call counted after a window has ended passes, whatever was rejected in it |
| RateWindows.CallsLeaveOthersAlone | finance-dashboard/server.js:365-381 | a call already counted changes nothing, and no other key's bucket changes except that an ended one is dropped when more than 5000 are kept |
| RateLimiter.SweepingIsInvisible | finance-dashboard/server.js:373-381 | for every call sequence with a non-decreasing clock the swept map decides exactly as one never swept |
| RateLimiter.SlidingWindowBound | finance-dashboard/server.js:361-397 | in any half-open interval of one window one key passes at most 2 * max - 1 requests, from any state |
| RateLimiter.LimiterHoldsTheBound | finance-dashboard/server.js:361-397 | the same for the limiter with eviction, from an empty map |
| RateLimiter.BoundIsMet | finance-dashboard/server.js:374-382 | a run that passes exactly 2 * max - 1 requests in one window's length, for every max and every window of two milliseconds or more |
| RateLimiter.RetryHint | finance-dashboard/server.js:382-396 | a rejected client passes again exactly when the window resets; the Retry-After seconds suffice and one second fewer does not |
| RateLimiter.KeysKeepLimitersApart | finance-dashboard/server.js:373 | keys of colon-free limiter names are equal only for the same limiter and client |
| RateLimiter.NamesFixPolicies | finance-dashboard/server.js:363-373 | so when a name fixes its limit, each key is under a single policy |
| Csv.ParseCsv | actual-tools/venmo-import.js:93-115 | the character loop with its look-ahead computes the specified parse |
| Csv.RejectedExactlyOnOddQuotes | actual-tools/venmo-import.js:93-115 | a text is rejected exactly when it holds an odd number of double quotes |
| Csv.Guard | finance-dashboard/server.js:1859 | the guarded text is never formula-like, and differs from the text only when that was |
| Csv.QuotedRun | finance-dashboard/server.js:1860 | reading a quoted cell undoes the doubling of its quotes |
| Csv.TableRun | finance-dashboard/server.js:1871-1884 | parsing a printed table after any rows appends its rows, less those whose cells are all empty |
| Csv.TableStaysTidy | actual-tools/venmo-import.js:98-110 | whatever table was printed, it parses, and no cell read back holds an unquoted carriage return |
| Csv.EscapeMeans | finance-dashboard/server.js:1857-1861 | a text is quoted if and only if it holds a quote, a comma or a line feed, and otherwise printed as it is, led by an apostrophe if it is formula-like |
| Csv.FormulaMeans | finance-dashboard/server.js:1859 | formula-like means that the first character that is not white space is one of the four signs |
| Csv.LineEndsDoNotMatter | actual-tools/venmo-import.js:103-113 | the rows joined by line feeds, carriage returns or both, with or without a last one, are read back less the rows whose cells are all empty |
| Csv.RoundTripsExactly | finance-dashboard/server.js:1857-1884 | a printed table is read back, less its blank rows, if and only if no cell holds a carriage return without a quote, comma or line feed |
| Csv.BareCarriageReturnSplits | finance-dashboard/server.js:1860 | a concrete cell with a bare carriage return is read back as two rows |
| MoneyText.ParseIsTheGrammar | actual-tools/venmo-import.js:162-170 | an amount is accepted exactly when its trimmed text decomposes as the regular expression says, and then has the value the parts denote |
| MoneyText.BlankIsMissing | actual-tools/venmo-import.js:163-164 | an amount is reported missing if and only if it is absent or all white space |
| MoneyText.OneDigitIsTens | actual-tools/venmo-import.js:165-169 | "3.5" is 350 cents |
| MoneyText.GroupedDenotes | actual-tools/finance-digest.js:34 | grouped printing yields a well-formed group of digits denoting the number printed, at any size |
| MoneyText.MoneyIsGrammatical | actual-tools/finance-digest.js:34-35 | every printed amount is a text of the grammar denoting the cents printed: the sign, a dollar sign, whole dollars with commas from a thousand on and no needless zero, two digits of cents |
| MoneyText.MoneyRoundTrips | actual-tools/finance-digest.js:34-35 | parsing what is printed for c cents gives exactly c, for every integer c |
| VenmoMerge.ImportCharges | actual-tools/venmo-import.js:343-368 | pending charges become a well-shaped import: each slug once with the sum of its charges, as one entry and one person, under the first name it came with, largest first; rejected exactly when two names under one slug differ in more than case |
| VenmoMerge.MergeEvent | actual-tools/venmo-import.js:117-160 | the merge loops compute the specified sidecar or collision |
| VenmoMerge.NamesMerge | actual-tools/venmo-import.js:126-134 | an import fails exactly when one of its people has a slug known under a name that differs in more than case, over the first such; otherwise its names replace, and others stay |
| VenmoMerge.MergeLooksUp | actual-tools/venmo-import.js:118-125 | after a merge a person's entries are the old ones of other events in order, then the import's |
| VenmoMerge.MergeOrdersSlots | actual-tools/venmo-import.js:118-125 | a merge keeps in order the slugs that still owe for another event, then adds the import's new ones in order, and leaves nobody without an entry |
| VenmoMerge.RunKeepsLastImports | actual-tools/venmo-import.js:117-160 | after any run of successful imports the entries are those of untouched events, unchanged and in order, then each event's as its latest import gave them |
| VenmoMerge.RunKeepsLastReceipts | actual-tools/venmo-import.js:149-156 | each event's import record is that of its latest import, others unchanged |
| VenmoMerge.PeopleAreTotals | actual-tools/venmo-import.js:135-142 | the people are exactly those with a positive total, each once, under the merged name, owing the sum of their entries, largest first |
| VenmoMerge.RunListsLastImports | actual-tools/venmo-import.js:117-160 | after any run of imports the people are exactly those whose untouched entries and latest imports sum to something owing, each once, owing that sum, largest first |
| StableSort.SortIsStable | actual-tools/venmo-import.js:142 | the sort keeps elements that compare equal in their order |
| VenmoMerge.ReimportIsIdempotent | actual-tools/venmo-import.js:117-160 | importing the same statement again succeeds and changes nothing |
| Payoff.PayoffProjection | finance-dashboard/dataModule.js:1178-1195 | the month loop computes the specified projection |
| Payoff.UnprojectedExactly | finance-dashboard/dataModule.js:1182-1190 | no projection exactly when there is no debt, no payment, or a twelfth of the yearly rate on the balance takes the whole payment |
| Payoff.BalanceFalls | finance-dashboard/dataModule.js:1189-1192 | while the payment exceeds the interest the balance falls strictly, so it never gets stuck later |
| Payoff.EasierDebtsEndSooner | finance-dashboard/dataModule.js:1178-1195 | owing no more at no higher a rate and paying no less never takes more months or more interest |
| Payoff.MonthsAreTheFirstPaidOff | finance-dashboard/dataModule.js:1187-1195 | the months are the first after which at most half a cent is owed, if and only if 600 payments are enough by the formula; otherwise 600 months are reported with more still owing |
| Payoff.CapHidesADebt | finance-dashboard/dataModule.js:1187-1195 | $601 at $1 a month without interest is reported as 600 months with a dollar still owing |
| Payoff.InterestIsPaidLessRepaid | finance-dashboard/dataModule.js:1187-1193 | interest is payments made less principal repaid, every payment full except perhaps the last |
| Payoff.MonthsSolveTheFormula | finance-dashboard/dataModule.js:1187-1193 | at a positive rate the months are the least solution of the closed amortisation formula, or the cap, where too the formula says whether the debt is paid off |
| DatedSums.SumOfPermutation | finance-dashboard/dataModule.js:1600 | a sum up to a day does not depend on the order of the rows |
| Trends.NetWorthSeries | finance-dashboard/dataModule.js:1600-1609 | the single pass gives for each month end the sum of all contributions dated on or before it, for any order by date |
| Forecast.GroupByDay | finance-dashboard/dataModule.js:4629-4636 | grouping keeps each day's inflow and outflow |
| Forecast.Walk | finance-dashboard/dataModule.js:4637-4657 | every point is the start balance plus everything up to its day, and the low is the least balance at its earliest date |
| Forecast.BuildForecast | finance-dashboard/dataModule.js:4540-4545 | from the raw events: each point has the day's inflow and outflow and the start plus everything since today, the last is start plus total inflow less total outflow, and the low is the least balance, starting before today's events, at its earliest date |
| DebtSplit.ItemizedOwed | actual-tools/splitwise-lib.js:226-287 | the accumulating loops give each user's two totals, and fail exactly when live expenses mix currencies |
| DebtSplit.AddSlices | actual-tools/splitwise-lib.js:261-284 | one expense adds each user's kept slices to the running totals |
| DebtSplit.SliceMeans | actual-tools/splitwise-lib.js:242-284 | a slice is the debt in proportion to the creditor's part of all credit, and is dropped at half a cent or less |
| DebtSplit.TotalsAre | actual-tools/splitwise-lib.js:242-287 | a view's totals are the slices of the live expenses, on which I am creditor or debtor |
| DebtSplit.ViewsAgree | actual-tools/splitwise-lib.js:242-287 | what my view says you owe me is exactly what your view says you owe, over any expenses |
| DebtSplit.SlicesMakeUpMyBalance | actual-tools/splitwise-lib.js:242-287 | on a zero-sum expense my kept slices sum to my balance less at most half a cent for each user on the other side |
| DebtSplit.ViewIsMyBalance | actual-tools/splitwise-lib.js:222-293 | over any zero-sum expenses my view's nets add up to my net balance, to within half a cent for each share on the other side |
| IdentityRegistry.Registry.RegisterPerson | actual-tools/owes-snapshot.js:26-61 | a call updates all three maps or is rejected for the first failing check and changes nothing |
| IdentityRegistry.RegisterKeepsOneToOne | actual-tools/owes-snapshot.js:42-60 | the three maps keep holding the same identities, each under its own id, name key and slug |
| IdentityRegistry.RegisterAccepts | actual-tools/owes-snapshot.js:43-54 | someone new is accepted exactly when well formed and compatible with everyone known |
| IdentityRegistry.RejectionMeans | actual-tools/owes-snapshot.js:26-55 | which rejection it is: first what is missing, then a clash with someone registered before over the id, the name or the slug, in this order |
| IdentityRegistry.RegisterAllAccepts | actual-tools/owes-snapshot.js:20-63 | a sequence is accepted exactly when all are well formed and any two agree on id, name key and slug or differ on all three |
| IdentityRegistry.AcceptanceIgnoresOrder | actual-tools/owes-snapshot.js:20-63 | acceptance does not depend on order, and leaves the maps one-to-one |
| VulnerabilityGate.KeyRoundTripsExactly | scripts/check-vulnerability-gate.js:70-88 | parsing undoes building a key if and only if no field holds a bar |
| VulnerabilityGate.KeysTellApart | scripts/check-vulnerability-gate.js:70-72 | equal keys are equal findings as soon as one of them is bar-free |
| VulnerabilityGate.BarsConfuseScopes | scripts/check-vulnerability-gate.js:70-72 | a tooling exception with a bar in it, and reports of the default scopes that pass with it although a production scope has a leaf finding |
| VulnerabilityGate.LeafFindingsAre | scripts/check-vulnerability-gate.js:140-197 | the leaf findings are exactly the blocking advisories, one for each node |
| VulnerabilityGate.CollectLeafFindings | scripts/check-vulnerability-gate.js:135-201 | collection succeeds exactly on well-formed reports with actionable advisories; its keys are those of the leaf findings, each holding a leaf finding of that key |
| VulnerabilityGate.GhsaMeans | scripts/check-vulnerability-gate.js:12 | an advisory id is GHSA and three groups of four letters or digits, in either case |
| VulnerabilityGate.ReadExceptions | scripts/check-vulnerability-gate.js:305-339 | exceptions are read exactly when each names an advisory, package, tooling scope, node, owner and reason and has not expired, and no key repeats; one key for each |
| VulnerabilityGate.PassesMeans | scripts/check-vulnerability-gate.js:375-428 | the gate passes exactly when the exceptions are so acceptable, every scope's report is usable and backs its high and critical counts, and the keys found are those excepted |
| VulnerabilityGate.PassingLastsUntilExpiry | scripts/check-vulnerability-gate.js:287-294 | what passes at one time passes at another if and only if no exception has expired by then, so at every earlier time |
| VulnerabilityGate.Evaluate | scripts/check-vulnerability-gate.js:375-428 | the gate passes exactly when exceptions are valid, every report is covered, and the keys found are the keys excepted |
| VulnerabilityGate.PassingMatchesExactly | scripts/check-vulnerability-gate.js:375-428 | for any valid exceptions: every passing run found exactly the excepted findings if and only if no exception holds a bar |
| VulnerabilityGate.PassingIsCleanInProduction | scripts/check-vulnerability-gate.js:208-247 | a passing run is clean in production unless an exception can be read as a production finding: no leaf finding, no high or critical count |
| VulnerabilityGate.PassingIsCleanExactly | scripts/check-vulnerability-gate.js:375-428 | for any valid exceptions: every passing run is clean in production if and only if none of them can be so read, already among runs of the four default scopes |
| VulnerabilityGate.MentionTurnsARun | scripts/check-vulnerability-gate.js:375-428 | when one can, any passing run turns into one with a production finding by a single report, no package appearing twice |

## Left out

- Express routing, sessions, passkeys, file writes, child processes, network calls and logging: effects on systems outside the model.
- The sagas, operation journal, coordinator, queue, request admission and obligation graph: separate subsystems.
- Attribution of transactions to people, category rules and recurrence statistics: heuristics whose results are inputs here.
- Payees, scores, reason texts, creation times and the final sorting of suggestions: presentation.
- How a stored link comes to be trusted: the trusted cents of a link are an input.
- Collation of dates and ids: replaced by their ranks; two ids that collate equal are one rank.
- Floating-point rounding: cents or exact reals, so `round2` on totals is the identity or is dropped.
- Payoff.PayoffProjection: gives the months and the exact interest, not the calendar day computed from the months nor the interest rounded to cents.
- Trends.NetWorthSeries: takes a date-ordered permutation as given; the code's comparator never returns zero, so which order the rows of one day come in is not determined, and does not matter here.
- VenmoMerge.MergeEvent: does not stamp the sidecar with a schema version, source, last event and time, which no other field depends on.
- VenmoMerge.ImportCharges: leaves the receipt, with its informational net of settled flows, to the caller.
- Fractional forecast horizons: the number of days is whole.
- Demo-mode selection and the response text of the rate limiter: only its decision and Retry-After seconds are modelled.
- IdentityRegistry.Registry.RegisterPerson: takes the parsed id and the normalised, lower-cased name key as inputs.
- Unicode in names: `toLowerCase` in the merge is ASCII.
- Validation of the sidecar file and its unsafe keys, and object keys that look like integers and are reordered by the language: slots keep insertion order.
- Choosing relevant statement rows by column, type, status and id: the pending charges are an input.
- DebtSplit.ItemizedOwed: keeps totals by user id where the code keeps them by a slug of the name, so the error on two names with one slug, and the rounding of each total to cents, are not modelled.
- DebtSplit.AddSlices: likewise by user id.
- The order in which a person's items are listed, and spend mirroring: no amounts depend on them.
- Extraction of the GHSA id from an advisory url and of an expiry time from a date: inputs, though the id's own pattern is checked.
- VulnerabilityGate.CollectLeafFindings: does not collect chain-only packages, nor the title and url of a finding: diagnostics.
- VulnerabilityGate.ReadExceptions: starts from the decoded entries, so a missing or malformed file, its schema version and unknown or missing fields of an entry are not modelled.
- Packages as keys: the entries of a report are a list, which may repeat a package; `VulnerabilityGate.MentionTurnsARun` keeps them distinct.
- VulnerabilityGate.ParseKey: reads the source field only when it is plain digits, where the code applies the language's general number conversion.
