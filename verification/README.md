# City server verification

A Dafny model of the hard logic of the city server and its operator scripts, with proofs. It
covers the prepaid-credit ledger and its leases, the `me` read that reports ledger changes, the
paged history, agreements and crafting as racing transactions, the migration splitter, the
request-log scan, the PNG writer, the static text evaluator, the credential sanitizer with its
exposure report, and the search-index repair.

`dafny verify dfyconfig.toml` checks everything.

## How it is built

- Code that updates variables, arrays or records is a method or a class, proved equal to a
  function of its inputs or of the old state. The properties are lemmas about that function.
- SQL statements are single steps on rows. Workers that race are runs: a list of steps in any
  order, each on the state the one before left. In the credit and agreement models a statement
  also has a snapshot, which may be any earlier state of the run: it reads the snapshot, and
  writes to the current rows under the unique indexes and row locks.
- The service classes (`CreditService.City`, `CreditAttention.Reader`,
  `AgreementService.Registry`, `CraftingRuns.Workshop`) run the TypeScript functions statement by
  statement and let the other workers take a turn, any list of steps, before each statement.
- Rows are named by their position in creation order, and random ids are values not used before.

Modules, by source file:

| module | source |
|---|---|
| `CreditLedger`, `CreditProtocol`, `CreditSafety` | the rows and statements of `src/city-credit.ts` and `src/city-credit-recovery.ts`, with the functions and triggers of `db/schema.sql` they call |
| `CreditService` | the begin, complete, return, deadline and issue functions of the same two files |
| `CreditAttention`, `CreditHistory` | the `me` read and the paged history of `src/city-credit.ts` |
| `Agreements`, `AgreementQuota`, `AgreementService` | `src/agreement-action.ts`, with `residentBySecret` of `src/core.ts` |
| `Crafting`, `CraftingRuns`, `CraftingQuota` | `src/crafting.ts`, with `parseKindRecipe` of `src/physics.ts` |
| `SqlLexer`, `SqlQuoting`, `SqlSplitter`, `MigrationPlan` | the splitter and the preparation in `scripts/migrate.ts` |
| `IndexRepair` | `scripts/public-search-index-migration.ts`, with the runners and the presence index of `scripts/migrate.ts` |
| `LogScan` | `scripts/export-vercel-failure-logs.ts` |
| `Crc32`, `CrcPolynomial`, `Png`, `Thumbnail` | `src/drawing-thumbnail.ts` |
| `StaticTexts`, `StaticForms`, `StaticNulls`, `StaticChoices` | `resolveStaticTexts` and the candidate keys of `scripts/check-refusal-census.ts` |
| `CredentialText`, `Sanitizer`, `ExposureReport` | `src/credential-safety.ts` and `scripts/credential-exposure-scan.ts` |
| `Common`, `Text` | shared datatypes, and the character classes and word patterns of regular expressions |

## Where the code does less than one might expect

Seven things a reader could expect are not so. For each there is a lemma that shows it and a lemma
that says when the expectation does hold.

- A begin whose snapshot is older than another attempt's completion can start a second paid
  attempt on the same target, because the unique index covers live attempts only
  (`CreditSafety.RacedBeginBlocksTwice`). `CreditSafety.BeginBlocksOnce` gives the exact condition
  for one begin and `CreditSafety.BlocksOnceExactly` for whole runs; runs whose begins read current
  snapshots are safe (`CreditSafety.BlocksOnce`).
- A begin can take the lease of an attempt whose recovery deadline has passed: it compares the
  deadline with the time at its start, and may have waited since (`CreditSafety.LateLeaseTaken`).
  `CreditSafety.LateLeaseExactly` says when a begin does so: exactly when its snapshot names the
  attempt, shows the deadline ahead and the lease free, and the row still has that lease.
  `CreditSafety.OverdueKeptExactly` lifts this to runs. A begin that reads a state past the deadline
  never does (`CreditSafety.NoLeaseAfterDeadline`), and no late lease can complete the attempt
  (`CreditSafety.NeverCompletedAfterDeadline`).
- Five agreement requests that authenticated before midnight and commit after it come on top of
  the new day's five (`AgreementQuota.TenActsOnOneDay`). Ten is the most there can be on a calendar
  day while every login arrives on the day it names (`AgreementQuota.AtMostTen`), since all late acts
  of a day are then charged to one earlier counter. More than five can still happen today exactly
  when the resident has late acts today already, or a request in flight and an earlier day's counter
  with quota left (`AgreementQuota.ExceedsExactly`).
- Counts can be set back. A login names the day its request was sent on, and a crafting commit the
  day its statement began on; one that arrives after the next day's count has begun clears that
  count, and the quota of either day can be spent again (`AgreementQuota.CounterSetBack`,
  `CraftingQuota.FortyOnOneDay`). Counters are true and every day stays within the quota in exactly
  the runs where no step puts a day on a counter that was charged already, or that comes before such
  a day (`AgreementQuota.CountsExactly`, `CraftingQuota.CountsExactly`).
- A conditional with a null arm inside a template or a concatenation resolves to the other arm
  alone, but prints "null" at run time (`StaticNulls.NullArmMisleads`). A concatenation of literals
  and such conditionals, nested in any way, is sound in every run exactly when the other arm of
  each is the literal "null" (`StaticNulls.NullArmsExact`). For any program, no run surprises a
  concatenation exactly when every text of an operand that leads to a null arm is matched by "null"
  (`StaticForms.HarmlessExactly`), and then the evaluator is sound (`StaticForms.Soundness`).
  Programs without such operands are sound with every gap filled by the text of its own operand
  (`StaticForms.CleanIsSound`).
- What the crafting reads accept the commit may still refuse although nothing changed: only the
  commit asks whether the place has an owner (`CraftingRuns.UnownedPlaceRefused`, and in both
  directions `CraftingRuns.ReadsPredictCommit`).
- A BEGIN and COMMIT around a script can change what becomes of it: a script that is accepted
  inside its own transaction is refused inside two (`MigrationPlan.WrappedTwice`, and one such
  script in `MigrationPlan.WrappedQuery`). A wrapper leaves a script as it is exactly when the
  script cannot be split, brings no transaction word, or is refused for a misplaced one without the
  wrapper too (`MigrationPlan.WrapperExact`).

## Model

| member | source | states |
|---|---|---|
| CreditLedger.SignRulesAgree | src/city-credit.ts:945-953 | The history's signed amount, the `me` read's separate sign rule and the balance trigger agree on every entry, and an entry the `me` read does not count moves no balance |
| CreditProtocol.ApplyInv | src/city-credit.ts:489-588 | Every step of every worker, with any snapshot, keeps links, unique spends and returns, one live attempt per target, and balances equal to the signed sums |
| CreditProtocol.ApplyEvolves | src/city-credit-recovery.ts:258-296 | No step shortens the ledger, moves a credit attempt's terms or deadline, or changes an ended attempt |
| CreditProtocol.LeasedInv | src/city-credit.ts:534-547 | Taking a lease keeps the invariant |
| CreditProtocol.InsertedInv | src/city-credit.ts:509-528 | A new attempt with its spend keeps the invariant, the unique indexes being checked on current rows |
| CreditProtocol.EndedInv | db/schema.sql:5044-5072 | Completing an attempt keeps the invariant |
| CreditProtocol.ReturnDbInv | db/schema.sql:3917-3974 | Returning a spend keeps the invariant: the return is linked to its one spend and the fee is back |
| CreditProtocol.PostDbInv | db/schema.sql:10152-10181 | Every other ledger entry the balance trigger lets in keeps the invariant |
| CreditProtocol.RunGood | src/city-credit.ts:605-690 | All states of every run satisfy the invariant and each evolves from every earlier one |
| CreditSafety.LeaseFencing | src/city-credit.ts:691-714 | Once an owner has lost an attempt's lease no completion by it changes anything, at any later point of any run |
| CreditSafety.LostLeaseFenced | src/city-credit.ts:534-547 | Losing a lease fences the owner off for good, or leaves it only a lease past the deadline |
| CreditSafety.LateLeaseExactly | src/city-credit.ts:490-547 | A step other than claim and return changes the row of an attempt past its deadline exactly when it is a begin whose snapshot names the attempt with its deadline ahead and its lease free; it then only sets owner and expiry |
| CreditSafety.OverdueKeptExactly | src/city-credit.ts:490-547 | Through a whole run without claim or return of it, an overdue attempt keeps its row exactly when no begin of the run takes its lease late |
| CreditSafety.LateLeaseTaken | src/city-credit.ts:534-547 | A run in which a begin leases an attempt past its deadline |
| CreditSafety.NoLeaseAfterDeadline | src/city-credit.ts:542 | In every run: once a state shows a credit attempt past its recovery deadline, no begin that reads it or a later state changes the attempt's row |
| CreditSafety.NeverCompletedAfterDeadline | db/schema.sql:5049-5055 | An attempt not completed by its deadline is never completed in any run |
| CreditSafety.LeaseProtects | src/city-credit.ts:543-546 | Until a lease runs out no begin, claim, completion or return of anybody else touches the attempt's row |
| CreditSafety.HolderCompletes | src/city-credit.ts:691-714 | So its holder can complete as long as lease and deadline are ahead |
| CreditSafety.LedgerSafety | src/city-credit.ts:492-548 | In every state of every run: one spend per resident and request id, one return per spend, returned attempts not completed, one live attempt per target, balances the signed sums and not negative |
| CreditSafety.EndedForEver | db/schema.sql:4750-4893 | A completed or returned credit attempt keeps its row for ever |
| CreditSafety.BeginBlocksOnce | src/city-credit.ts:499-521 | A begin keeps one blocking credit attempt per target exactly unless it inserts beside one completed since its snapshot |
| CreditSafety.BlocksOnce | src/city-credit.ts:499-521 | With every begin unraced a target never has two blocking credit attempts |
| CreditSafety.BlocksOnceExactly | src/city-credit.ts:499-521 | A run gives some target two blocking credit attempts exactly when one of its begins inserts beside an attempt completed since that begin's snapshot |
| CreditSafety.RacedBeginBlocksTwice | db/schema.sql:2949-2951 | A concrete run of four steps after which a target has two paid blocking attempts |
| CreditSafety.FeesConserved | src/city-credit.ts:522-528 | From any good state on, every step of every run keeps: a balance is the deposits less one fee for each pending or completed attempt of the resident |
| CreditSafety.NoFeeLost | src/city-credit.ts:522-528 | So in every state of every run from an empty database no fee is lost or invented |
| CreditSafety.ReturnKeepsFees | src/city-credit-recovery.ts:121-147 | A return gives back exactly the fee of the attempt it ends |
| CreditSafety.DeadlineReturnWorks | src/city-credit-recovery.ts:247-319 | Past its deadline a pending attempt whose lease ran out can be claimed and returned by anyone, the fee is back whole, and a second return changes nothing |
| CreditSafety.LeaseRunsOut | src/city-credit.ts:536-537 | A pending attempt's lease ends at the latest 30 seconds after now |
| CreditService.BeginTruthful | src/city-credit.ts:549-588 | A begin row of these terms, read from any earlier snapshot, is true of the current state: who pays, who holds the lease, what was stored |
| CreditService.SpendOfRow | src/city-credit.ts:446-478 | A row that passes the terms check names the spend entry that pays for its attempt |
| CreditService.ReturnFound | src/city-credit-recovery.ts:213-228 | A returned attempt's one return entry is found through its spend |
| CreditService.FreshBeginAnswers | src/city-credit.ts:618-630 | A begin with a current snapshot never loses to an unseen winner: it answers, or credit is short |
| CreditService.BeginProgress | src/city-credit.ts:480-603 | A begin with a current snapshot takes the lease when nothing blocks the target and the fee can be paid, or when the request has paid for an attempt with a free lease and its deadline ahead |
| CreditService.ReplayFindsPayment | src/city-credit.ts:492-498 | A begin that can see the request id's payment answers with that attempt and charges nothing |
| CreditService.City.ExecuteBeginSpend | src/city-credit.ts:480-603 | One begin statement does to the current rows what the snapshot and the locks decide, and charges at most once |
| CreditService.City.BeginCityCreditSpend | src/city-credit.ts:605-690 | Whatever runs in between: ready means the lease is held and one spend of these exact terms pays; completed and returned replay the stored outcome; busy names an attempt that was alive; at most one fee is charged, and only with ready. When nobody acts after the deciding statement the answer is the one its state calls for, with no two answers possible: completed, returned, busy, ready, conflict or refused each with its exact condition |
| CreditService.UndisturbedDecides | src/city-credit.ts:605-690 | The first statement of a call that nobody disturbs decides in the state the call finds |
| CreditService.StartableIsReady | src/city-credit.ts:605-690 | Where nothing blocks the target and the fee can be paid, or the request has paid for an attempt with its lease free and its deadline ahead, the answer that the state calls for is ready |
| CreditService.LosesExactly | src/city-credit.ts:618-630 | Exactly when a first statement loses: an unseen payment under the request id, or an unseen attempt in the way |
| CreditService.City.CompleteCityCreditAttempt | src/city-credit.ts:691-728 | Succeeds exactly when, at its statement, the attempt is the actor's own by credit, leased by the owner and not past its deadline; then it alone is completed with this response |
| CreditService.LeasersExactly | src/city-credit.ts:691-714 | In every good state completing takes exactly the lease and a deadline ahead, and returning exactly the lease |
| CreditService.City.ReturnStatement | src/city-credit-recovery.ts:121-147 | The return statement's new state and answer: created, existing with the same reason and response, or refused |
| CreditService.City.ReadReturn | src/city-credit-recovery.ts:208-245 | Reading a returned attempt always finds its spend and its one return entry |
| CreditService.City.ReturnCityCreditSpend | src/city-credit-recovery.ts:104-206 | Succeeds exactly when, at its first statement, the owner leases the actor's attempt or it was returned with the same reason and response; a new return is the next ledger entry, of the fee, for the spend; the second statement always finds it |
| CreditService.City.ClaimStatement | src/city-credit-recovery.ts:256-297 | The claim's new state and answer: ready exactly replaces a lease that was its own or had run out, past the deadline, by one of thirty seconds; any other answer changes nothing |
| CreditService.City.ReturnExpiredCityCreditSpend | src/city-credit-recovery.ts:247-319 | What each answer says about the state its claim meets, in both directions: not due, busy and unavailable exactly when that state calls for them; undisturbed, returned exactly when the attempt was returned or is overdue with its lease free, and then the fee is back |
| CreditService.City.IssueCityFeeCredit | src/city-credit.ts:319-400 | The answer names the one entry with the source key, with these terms, and the balance is the signed sum; undisturbed, a new key of a known resident is issued, a stored one is answered when its terms are these and refused otherwise |
| CreditAttention.ReportAccurate | src/city-credit.ts:921-979 | A report's change is the balance difference over its interval even if its snapshot is older than the checkpoint |
| CreditAttention.UnitsAreBalance | src/city-credit.ts:943-977 | The interval sum of the `me` read equals the difference of two balances |
| CreditAttention.ApplyGood | src/city-credit.ts:927-942 | Every write and every read keeps each resident's reports chained, accurate and in step with the checkpoint |
| CreditAttention.ExactlyOnce | src/city-credit.ts:918-977 | In every run each id the checkpoint passed since the first read lies in exactly one reported interval, and no other id in any |
| CreditAttention.ChangesTelescope | src/city-credit.ts:943-977 | In every run a resident's reported changes add up to the balance difference since the first read |
| CreditAttention.FreshVisitCatchesUp | src/city-credit.ts:921-926 | After a read with a current snapshot the total is the balance itself less the balance at the first read |
| CreditAttention.Reader.ReadSnapshot | src/city-credit.ts:927-942 | The report starts where the checkpoint stood and ends where the upsert leaves it, which is never earlier and has no visible entry of the resident beyond it |
| CreditAttention.Reader.Attempt | src/city-credit.ts:1140-1174 | One report statement either commits marker and report together or leaves both as they were |
| CreditAttention.Reader.ReadCityCreditAttention | src/city-credit.ts:1102-1176 | However its statements end, the read commits exactly one report that continues the chain, or leaves checkpoint and reports alone. It answers exactly when the resident is known, the window is in order and the statement that decides is done: the first, or the retry after a cancelled one or after a slot was refused, whose summary is then skipped for timeout or as busy |
| CreditAttention.Reader.ReportWithin | src/city-credit.ts:1102-1176 | The same for the part behind the savepoint, from the state in which the window was pinned |
| CreditAttention.WindowAlwaysOpen | src/city-credit.ts:1125-1139 | A checkpoint is never ahead of the public changes, so the window check refuses no resident whose reports are in order |
| CreditHistory.PageSplits | src/city-credit.ts:822-845 | A page is the first ids up to the limit, has more exactly when there are more, and its cursor leads to exactly the rest |
| CreditHistory.IdsOfLonger | src/city-credit.ts:831-835 | Entries appended later do not show below an earlier cursor |
| CreditHistory.WalkShowsHistory | src/city-credit.ts:804-865 | With any limits and appends between pages, following the cursor shows each entry of the first page's ledger once, newest first |
| CreditHistory.WalkSumsToBalance | src/city-credit.ts:741-802 | The signed amounts over a whole walk sum to the balance at its first page |
| Agreements.CreateInv | src/agreement-action.ts:82-117 | Creating an agreement keeps all agreement invariants |
| Agreements.OpenInv | src/agreement-action.ts:185-212 | Opening an agreement keeps them |
| Agreements.SignInv | src/agreement-action.ts:339-385 | Signing, with any earlier snapshot, keeps them |
| Agreements.ApplyInv | src/agreement-action.ts:82-385 | Every step of every interleaving keeps them, joining, logging in and a new day included |
| Agreements.AgreementSafety | src/agreement-action.ts:82-385 | In every state of every run: signers are parties, one signature each, unnamed parties signed an open agreement, only the creator opened it, and the log tells each agreement and signature once and truly |
| Agreements.NamedForEver | src/agreement-action.ts:96-105 | An agreement's named parties and openings never change |
| Agreements.ReplayChangesNothing | src/agreement-action.ts:314-333 | Once signed, every further sign changes nothing, the counter included |
| Agreements.ViolationMeansSigned | src/agreement-action.ts:391-397 | A unique violation of a sign always means that the signature is stored |
| Agreements.OpenExactlyByActs | src/agreement-action.ts:100-104 | In every state of every run an agreement is open exactly when its creation or a later act of its creator opened it, and until then only named parties have signed |
| AgreementQuota.CountsExactly | src/core.ts:209-222 | All states of a run have true counters and no day charged beyond the quota exactly when no login of the run goes back to a day that was charged already, or before such a day |
| AgreementQuota.ForwardKeepsCount | src/core.ts:209-222 | A login that names no earlier day than the counter's keeps the counters true |
| AgreementQuota.CounterSetBack | src/core.ts:209-222 | A run, every act of which has its own request, with ten acts charged to one day and fifteen on the next |
| AgreementQuota.AtMostTen | src/agreement-action.ts:86-91 | In every state of every run whose logins arrive on the day they name, a resident has at most ten acts on any calendar day, five charged to that day and five to one earlier counter |
| AgreementQuota.ExceedsExactly | src/agreement-action.ts:86-91 | Given the requests in flight, some steps of the current day lead to more than five acts of a resident on it exactly when the resident has late acts today, or a request in flight and an earlier day's counter with quota left |
| AgreementQuota.TenActsOnOneDay | src/agreement-action.ts:86-91 | A run with prompt logins and ten acts of one resident on one day |
| AgreementService.Registry.CreateStatement | src/agreement-action.ts:82-117 | The create statement's new state, and whether it created |
| AgreementService.Registry.CreateAgreementAction | src/agreement-action.ts:57-133 | Done means stored with exactly the named parties, open exactly when asked, and one act; otherwise no act, and a quota answer means the quota was used up or a handle repeated; an undisturbed call has the one answer its state calls for |
| AgreementService.Registry.OpenStatement | src/agreement-action.ts:185-212 | The opening statement's new state, and whether it opened |
| AgreementService.Registry.OpenAgreementAccessionAction | src/agreement-action.ts:146-244 | Done means the actor's own agreement is open; only the call that opened it spends an act; an agreement that is open already is answered as done whatever the quota |
| AgreementService.Registry.SignStatement | src/agreement-action.ts:339-385 | The sign statement's new state and answer, unique violations included |
| AgreementService.Registry.SignAgreementAction | src/agreement-action.ts:268-398 | Done means one true signature; only the call that stored it spends an act, and the loser of a race replays the winner's signature instead of failing |
| Crafting.IngredientIdList | src/crafting.ts:139-153 | Gives the list itself exactly when it is short, positive and without repeats |
| Crafting.ParseKindRecipe | src/physics.ts:843-870 | Gives the recipe the lines spell exactly when kinds differ, quantities are positive and the total fits |
| Crafting.ExactRecipeMatch | src/crafting.ts:194-203 | For a parsed recipe, true exactly when every ingredient has a kind and the two multisets are equal |
| Crafting.FullJoinIsEquality | src/crafting.ts:390-405 | For a parsed recipe the commit's full join finds no difference exactly when the multisets are equal |
| Crafting.SameNameExactly | src/crafting.ts:196-199 | Two names are one kind exactly when their letters differ in nothing but case |
| CraftingRuns.CommitAllOrNothing | src/crafting.ts:348-474 | A commit changes nothing, or the ingredients were exactly the recipe, they and nothing else are withdrawn, one thing is added and one unit of its day's quota is spent |
| CraftingRuns.CommitsExactly | src/crafting.ts:348-412 | Exactly what a commit asks: distinct things at hand, an owned, open and welcoming place, the current recipe of existing kinds, the recipe met as a multiset, and quota left on the statement's day |
| CraftingRuns.CommitInv | src/crafting.ts:348-474 | A commit keeps: no thing consumed twice, every withdrawal of one craft, every craft charged to its day |
| CraftingRuns.CraftingSafety | src/crafting.ts:348-474 | In every run no thing is consumed twice, what is consumed stays withdrawn, and every craft is charged to its statement's day |
| CraftingQuota.CountsExactly | src/crafting.ts:413-426 | All states of a run have true counters and no day charged beyond the quota exactly when no login or commit of the run puts a day on a counter that was charged already, or that comes before such a day |
| CraftingQuota.QuotaSafety | src/crafting.ts:413-426 | In such a run no resident makes or crafts more than twenty things on any day |
| CraftingQuota.FortyOnOneDay | src/crafting.ts:413-426 | A run with forty crafts of one resident on one day |
| CraftingRuns.ReadsPredictCommit | src/crafting.ts:281-346 | What the reads accept the unchanged commit accepts exactly if quota is left and the place has an owner |
| CraftingRuns.ReadsExactly | src/crafting.ts:262-346 | Exactly what the reads ask of the rows they see |
| CraftingRuns.UnownedPlaceRefused | src/crafting.ts:281-289 | A concrete database where the reads accept what no commit will make |
| CraftingRuns.Workshop.CommitStatement | src/crafting.ts:348-474 | The commit statement's new state and answer |
| CraftingRuns.Workshop.IngredientsMatch | src/crafting.ts:329-342 | The ingredient reads accept exactly what is found, not held, eligible and equal to the recipe as a multiset |
| CraftingRuns.Workshop.ReadAndClassify | src/crafting.ts:262-346 | Undisturbed, the reads refuse exactly the requests that fail one of the conditions |
| CraftingRuns.Workshop.CraftKindThing | src/crafting.ts:251-505 | A thing means one commit whose ingredients were exactly the current recipe; any other answer leaves nothing behind; undisturbed it succeeds exactly when accepted, owned and within quota |
| SqlLexer.LexCharacterised | scripts/migrate.ts:803-900 | Pieces are the lexed ones exactly when they join to the text and none starts or ends inside a string, identifier, comment or dollar body |
| SqlLexer.JoinOfLex | scripts/migrate.ts:834-835 | The untrimmed pieces joined by semicolons give the input back |
| SqlLexer.LexedPiecesClosed | scripts/migrate.ts:803-891 | No piece is cut inside a lexeme |
| SqlLexer.LexCut | scripts/migrate.ts:834-835 | The first semicolon after a closed text is a cut |
| SqlLexer.SplitRoundTrip | scripts/migrate.ts:790-900 | Splitting the join of trimmed, non-empty, closed statements gives the statements back |
| SqlQuoting.DollarBody | scripts/migrate.ts:781-784 | After any delimiter, two dollar signs around nothing or a tag of letters, digits and underscores, everything up to its first repetition is one lexeme |
| SqlQuoting.LoneDollar | scripts/migrate.ts:822-832 | A dollar sign that starts no delimiter opens nothing |
| SqlQuoting.DollarNeverCloses | scripts/migrate.ts:862-873 | A delimiter that is not repeated leaves the text unterminated |
| SqlQuoting.MigrationBlock | scripts/migrate.ts:822-873 | A DO block with any tag around statements without a dollar sign is one statement, whatever semicolons it holds |
| SqlQuoting.QuoteEndsExactly | scripts/migrate.ts:875-890 | A quoted string or identifier ends exactly behind some text with its quotes doubled and one quote that no other follows |
| SqlQuoting.CommentBalances | scripts/migrate.ts:847-860 | A block comment ends where its openings and closings balance |
| SqlQuoting.LineComment | scripts/migrate.ts:841-845 | A line comment runs to the end of its line |
| SqlSplitter.SplitSqlStatements | scripts/migrate.ts:790-900 | The six-mode loop gives exactly what the recursive lexer gives, and fails exactly where that one ends unterminated, for the same reason |
| SqlSplitter.DollarDelimiterAt | scripts/migrate.ts:781-784 | Gives the delimiter that starts at a dollar sign, and none exactly when no delimiter does |
| MigrationPlan.SplitWrapped | scripts/migrate.ts:790-900 | A script inside BEGIN and COMMIT splits into BEGIN, its own statements and COMMIT |
| MigrationPlan.WrapperChangesNothing | scripts/migrate.ts:913-941 | A script free of transaction words is prepared the same with and without BEGIN and COMMIT |
| MigrationPlan.WrapperRefusesBoundaries | scripts/migrate.ts:925-929 | A script that brings a transaction word is refused once wrapped |
| MigrationPlan.WrapperExact | scripts/migrate.ts:913-941 | Preparing the wrapped script gives the same result exactly when the script cannot be split, brings no transaction word, or is refused for an unexpected one without the wrapper too |
| MigrationPlan.WrappedTwice | scripts/migrate.ts:913-929 | A script without transaction words stays as it is inside one wrapper and is refused inside two |
| MigrationPlan.WrappedQuery | scripts/migrate.ts:913-941 | One accepted script that a wrapper turns into a refused one |
| MigrationPlan.PreparedIsTransactional | scripts/migrate.ts:913-941 | What is run starts with the two limits, holds no transaction word and no concurrent build, and is the script's own statements |
| MigrationPlan.TransactionWordsExactly | scripts/migrate.ts:925-929 | What counts as a transaction word: BEGIN, COMMIT or ROLLBACK in any case, alone or with one of two words behind white space |
| MigrationPlan.ConcurrentBuildExactly | scripts/migrate.ts:930-934 | What counts as a concurrent build: the words between word boundaries, in any case and spacing, with or without UNIQUE |
| Text.TrimCuts | scripts/migrate.ts:797-801 | Trimming takes off exactly the white space at both ends |
| LogScan.Scanner.RetainPage | scripts/export-vercel-failure-logs.ts:139-144 | The closure's row loop keeps first rows per id and stops at a row outside the window |
| LogScan.Scanner.AskServer | scripts/export-vercel-failure-logs.ts:136-146 | The closure up to its recursion: count, read, retain, and whether to bisect |
| LogScan.Scanner.ReadChronologicalWindow | scripts/export-vercel-failure-logs.ts:135-150 | The recursive closure's effect on rows, requests and complete windows, and its depth |
| LogScan.FetchVercelFailureRows | scripts/export-vercel-failure-logs.ts:121-167 | The outer loop gives what the recursive description of the scan gives |
| LogScan.ScanExact | scripts/export-vercel-failure-logs.ts:130-166 | If complete pages hold every row of their window, a successful scan lists exactly the range's rows, one per request id, in (timestamp, id) order |
| LogScan.WindowSucceeds | scripts/export-vercel-failure-logs.ts:135-150 | A window is read without an error exactly when it can be bisected into readable complete pages with no foreign row and the budget covers their requests, which are then all it takes |
| LogScan.FetchSucceeds | scripts/export-vercel-failure-logs.ts:121-167 | A fetch succeeds exactly when its input is valid, that holds of every window it comes to, and all of them take at most 10,000 requests |
| LogScan.PagedFetchSucceeds | scripts/export-vercel-failure-logs.ts:121-167 | For a server whose pages hold up to n rows: a fetch succeeds only if no millisecond of the range holds more, and whenever that is so if the range is not too long and too full for 10,000 requests |
| LogScan.LeavesPartitionRange | scripts/export-vercel-failure-logs.ts:145-162 | The windows with complete pages cut the range into pieces without gap or overlap |
| LogScan.WindowCost | scripts/export-vercel-failure-logs.ts:135-150 | A window of n milliseconds costs at most 2n - 1 requests |
| LogScan.BisectionDepth | scripts/export-vercel-failure-logs.ts:147-149 | A window of at most 2^k milliseconds is bisected at most k times |
| LogScan.ScanBounds | scripts/export-vercel-failure-logs.ts:136-162 | No scan makes more than 10,000 requests or recurses deeper than 24 |
| LogScan.SortProperties | scripts/export-vercel-failure-logs.ts:164-166 | The final order is a sorted permutation |
| LogScan.InputRefusedExactly | scripts/export-vercel-failure-logs.ts:124-129 | Exactly which inputs are refused before the first request |
| LogScan.RefusalMeans | scripts/export-vercel-failure-logs.ts:135-150 | Every other refusal names what happened inside the range: a failed read, a row outside its window, one millisecond with too many rows, or the budget |
| LogScan.NextSizeMeans | scripts/export-vercel-failure-logs.ts:156-161 | The width doubles after fewer than 25 new rows, halves after more than 100 and stays between thirty seconds and two hours |
| Crc32.Crc | src/drawing-thumbnail.ts:8-17 | The nested loops compute the checksum built from one-bit steps |
| Crc32.ShiftBijective | src/drawing-thumbnail.ts:13 | One bit of the loop is a bijection on 32-bit words, with an explicit inverse |
| Crc32.UpdateBijective | src/drawing-thumbnail.ts:10-15 | Feeding a fixed byte is a bijection on the states |
| Crc32.FeedInjective | src/drawing-thumbnail.ts:10-15 | Different states stay different over any common message |
| Crc32.FeedLinear | src/drawing-thumbnail.ts:10-15 | Feeding is linear under exclusive-or of states and messages of one length |
| Crc32.ChecksumAffine | src/drawing-thumbnail.ts:8-17 | The checksum is affine under exclusive-or of equal-length messages |
| Crc32.ShortBurst | src/drawing-thumbnail.ts:10-15 | Two different messages of at most four bytes leave different states from any start |
| Crc32.BurstDetected | src/drawing-thumbnail.ts:8-17 | Messages of one length that differ only inside four adjacent bytes have different checksums |
| CrcPolynomial.ChecksumIsRemainder | src/drawing-thumbnail.ts:8-17 | The checksum is what section 3.4 of RFC 2083 says: its complement is the remainder of the message polynomial by the generator with the listed exponents |
| CrcPolynomial.RemainderUnique | src/drawing-thumbnail.ts:8-17 | And a polynomial has one such remainder only, so this fixes the checksum |
| Png.Put | src/drawing-thumbnail.ts:46 | Writing bytes into a buffer changes exactly that stretch |
| Png.PngChunk | src/drawing-thumbnail.ts:19-28 | The chunk buffer is length, kind, data and checksum (RFC 2083 section 3.2) |
| Png.PackRows | src/drawing-thumbnail.ts:41-47 | The raw buffer is the scanlines, each behind filter byte 0 (RFC 2083 section 6) |
| Png.PackHeader | src/drawing-thumbnail.ts:48-52 | The header is that of RFC 2083 section 4.1.1 |
| Png.EncodePng | src/drawing-thumbnail.ts:30-59 | The file the writer assembles, and its two refusals |
| Png.DecodeEncoded | src/drawing-thumbnail.ts:30-59 | A reader that checks lengths and checksums recovers width, height and every pixel |
| Png.UnfilterScanlines | src/drawing-thumbnail.ts:43-47 | Taking the filter bytes off the scanlines gives the pixels |
| Png.ParseChunkBytes | src/drawing-thumbnail.ts:19-28 | A written chunk parses back, whatever follows it |
| Png.DamagedChunkRefused | src/drawing-thumbnail.ts:26 | A chunk with up to four adjacent bytes of kind and data changed is refused |
| Png.FileLayout | src/drawing-thumbnail.ts:30-59 | Where every byte of the file stands: signature, lengths and kinds spelled out, the header fields, and the end |
| Thumbnail.HexOfRgb | src/drawing-thumbnail.ts:61-67 | A colour's bytes spell its six hex digits again |
| Thumbnail.RgbSpelled | src/drawing-thumbnail.ts:61-67 | Red, green and blue in this order, each sixteen times its first digit plus its second |
| Thumbnail.DrawPixel | src/drawing-thumbnail.ts:74-86 | One pixel more is drawn, or the first bad cell is named |
| Thumbnail.RenderDrawingThumbnailPng | src/drawing-thumbnail.ts:69-90 | The nested loops give the encoded plane, or the error of the first bad cell in reading order |
| Thumbnail.ThumbnailShowsDrawing | src/drawing-thumbnail.ts:69-90 | The thumbnail decodes, and every pixel of each 4 by 4 block gives its cell of the drawing back, transparent cells included |
| StaticTexts.ResolveStaticTexts | scripts/check-refusal-census.ts:520-602 | The recursion with its copied set of visited nodes and its template loop ends on every graph and gives the evaluator's texts |
| StaticForms.TextsAreRenderings | scripts/check-refusal-census.ts:530-602 | The evaluator's texts are exactly the renderings of forms, lists of literals and of gaps that each stand for one operand |
| StaticForms.FormSoundness | scripts/check-refusal-census.ts:520-602 | For every way of filling gaps that admits the operands' values, and where no null reaches a concatenation unforeseen: a non-empty result has a form that the run-time string matches, each gap filled by one stretch and every literal in its place |
| StaticForms.Soundness | scripts/check-refusal-census.ts:520-602 | So one of the returned texts renders a form that the run-time string matches |
| StaticForms.HarmlessExactly | scripts/check-refusal-census.ts:556-602 | No run surprises a concatenation exactly when every operand with one text that leads to a null arm has a form which "null" matches, on all calls that some evaluation makes |
| StaticForms.CleanIsSound | scripts/check-refusal-census.ts:520-602 | In every run of a program none of whose operands leads to a null arm, the string is a form with each gap filled by the text its own operand has in that run, and so a form with any gaps |
| StaticForms.OnlyNullArmsMislead | scripts/check-refusal-census.ts:556-562 | A value that is not a string although its node has texts is null, and the node leads to a null arm |
| StaticForms.MatchesAppend | scripts/check-refusal-census.ts:563-602 | Matching is preserved by concatenation of forms |
| StaticForms.UnresolvedSpan | scripts/check-refusal-census.ts:594-600 | A span without exactly one text shows as its source between dollar-brace and brace |
| StaticNulls.TreeResolves | scripts/check-refusal-census.ts:556-602 | A concatenation of literals and nullable conditionals, nested in any way, has one text, that of the run without nulls, and its form has no gap |
| StaticNulls.NullArmMisleads | scripts/check-refusal-census.ts:556-602 | When one of its conditionals has another arm than "null", the run that takes that null arm prints a different string |
| StaticNulls.NullArmsExact | scripts/check-refusal-census.ts:556-602 | Such a concatenation is sound in every run exactly when each of its conditionals has the literal "null" as its other arm |
| StaticChoices.TextsExactly | scripts/check-refusal-census.ts:556-562 | For conditionals over literals, null arms and unknown leaves, nested in any way: the texts are exactly the strings that some run prints |
| StaticChoices.NoTextExactly | scripts/check-refusal-census.ts:556-562 | And there is none exactly when two runs that take the same arms can differ |
| StaticChoices.TextsDistinct | scripts/check-refusal-census.ts:530-601 | No text is given twice, in any program |
| StaticTexts.OrdinalKeys | scripts/check-refusal-census.ts:920-932 | Every candidate gets the key of its expression and occurrence, and no two keys are equal |
| StaticTexts.KeyInjective | scripts/check-refusal-census.ts:922-925 | A key determines its expression and ordinal |
| CredentialText.ExtractIsEmptyExactly | src/credential-safety.ts:63-69 | Extraction finds something exactly when an exact credential occurs |
| CredentialText.MatchesAreExact | src/credential-safety.ts:50-69 | Each extracted token is an exact credential of its kind and nothing more |
| CredentialText.CleanTextHasNoMatch | src/credential-safety.ts:71-73 | Text without a credential-like part has no exact match |
| CredentialText.LikeExactly | src/credential-safety.ts:1-4 | Character by character what looks like a credential: the prefix, one of six pairs of letters, an underscore and eight hex digits, in any case |
| CredentialText.TokenExactly | src/credential-safety.ts:6-7 | And what an exact one is: 48 hex digits for a resident key, 64 for the others |
| CredentialText.ExtractMissesNone | src/credential-safety.ts:63-69 | Every position where an exact credential stands lies in an extracted token |
| CredentialText.ExtractedAtStarts | src/credential-safety.ts:63-69 | The extracted tokens stand apart, from left to right, each with its text and kind as they stand there |
| CredentialText.NoticesAreClean | src/credential-safety.ts:10-13 | The redaction and the withheld notice hold no credential |
| Sanitizer.TraversalState.SanitizeValue | src/credential-safety.ts:99-142 | The recursion on the mutable traversal state gives the described value and state |
| Sanitizer.SanitizePublicValue | src/credential-safety.ts:144-160 | The result, withheld whenever the traversal was uncertain |
| Sanitizer.GoesThrough | src/credential-safety.ts:99-142 | From any depth and state the traversal gives up exactly on values that do not fit, and otherwise replaces exactly the leaking strings |
| Sanitizer.SafetyExact | src/credential-safety.ts:144-160 | Withheld exactly when too deep, too large, shared, sparse, not plain or with a credential key; changed exactly when withheld or a string was replaced |
| Sanitizer.WithheldExactly | src/credential-safety.ts:87-142 | Withheld exactly when some path leads to an array with holes, an object that is not plain or a key like a credential, or the value is deeper than 32, larger than 20,000 or reaches an object twice |
| Sanitizer.ResultHoldsNoCredential | src/credential-safety.ts:99-160 | No string and no key of the result holds a credential, at any depth |
| Sanitizer.ResultKeysAreClean | src/credential-safety.ts:132-136 | So no key of the result looks like a credential, at any depth |
| Sanitizer.ShapeKept | src/credential-safety.ts:119-141 | Every path of a value that is not withheld leads to the redacted part: shape, keys and clean strings are kept |
| Sanitizer.SanitizeIdempotent | src/credential-safety.ts:144-160 | Sanitizing twice is sanitizing once, and the second time changes nothing |
| ExposureReport.IndexIdentities | scripts/credential-exposure-scan.ts:339-345 | Identities are indexed by hash, exactly when no two share one |
| ExposureReport.CountRow | scripts/credential-exposure-scan.ts:366-382 | The inner loop counts each match of a row once, under its kind and under what became of it |
| ExposureReport.BuildResult | scripts/credential-exposure-scan.ts:331-407 | The counts cover every exact match of every row although rows without anything credential-like are skipped |
| ExposureReport.ReportAddsUp | scripts/credential-exposure-scan.ts:347-384 | Exact credentials are live plus inactive plus unresolved, and the sum of the kinds; live owners are owners |
| ExposureReport.CountsExactly | scripts/credential-exposure-scan.ts:366-382 | Each count is the number of matches with that kind or fate |
| ExposureReport.EveryIdentityCounted | scripts/credential-exposure-scan.ts:466-478 | When the identities answer the lookup every one of them is counted |
| IndexRepair.NormalizedCatalogSql | scripts/public-search-index-migration.ts:109-129 | The loop with its skipped doubled quotes gives the normal form by parity of quotes |
| IndexRepair.NormalIdempotent | scripts/public-search-index-migration.ts:109-129 | Normalizing twice is normalizing once |
| IndexRepair.NormalOfParts | scripts/public-search-index-migration.ts:109-129 | Outside quotes case and white space do not count, between quotes everything does |
| IndexRepair.SearchSetupSane | scripts/public-search-index-migration.ts:19-55 | The results below hold for the five search indexes when their create statements build what was reviewed |
| IndexRepair.IndexedCreateStatements | scripts/public-search-index-migration.ts:158-176 | Accepts exactly one create statement per reviewed index and as many statements as indexes |
| IndexRepair.CreatesExactly | scripts/public-search-index-migration.ts:163-166 | Which statements create an index: the seven words in any case between word boundaries |
| IndexRepair.RecoveryStatements | scripts/public-search-index-migration.ts:182-212 | The planner's loops give the plan of the catalog, and refuse repeated names |
| IndexRepair.EventsRecoveryStatements | scripts/migrate.ts:1009-1022 | The presence index has the same plan for one index, and two rows of its name are refused |
| IndexRepair.PlanDecides | scripts/public-search-index-migration.ts:195-211 | There is a plan exactly when no definition conflicts, and it is empty exactly when all indexes are ready |
| IndexRepair.SearchConflictsExactly | scripts/public-search-index-migration.ts:131-156 | Exactly which rows stop the search-index migration: a reviewed name with any field other than reviewed |
| IndexRepair.EventsConflictsExactly | scripts/migrate.ts:982-1007 | And exactly which row stops the presence-index migration |
| IndexRepair.PlanRuns | scripts/migrate.ts:1119-1124 | However its statements end, a run of the plan keeps definitions good and ready indexes untouched; an undisturbed run makes them all ready |
| IndexRepair.AttemptsKeep | scripts/migrate.ts:1105-1135 | The same over any number of failed attempts |
| IndexRepair.RepairConverges | scripts/migrate.ts:1105-1135 | From any mix of missing, invalid and valid indexes and after any failed attempts, one undisturbed attempt makes the next plan empty |
| IndexRepair.ConflictFailsClosed | scripts/public-search-index-migration.ts:202-204 | A conflicting definition stops everything |
| IndexRepair.Database.ApplyPublicSearchIndexMigration | scripts/migrate.ts:1105-1135 | Success means every index is ready; however it ends ready indexes are untouched, and a conflict or a missing extension changes nothing |
| IndexRepair.Database.ApplyEventsPresenceIndexMigration | scripts/migrate.ts:1084-1103 | The same for the presence index |

## Left out

Assumptions of the models:

- Characters: strings are lists of characters, not UTF-16 units, and the case folding of every
  regular expression is that of ASCII letters; the `u` flag's few further foldings are not modelled.
- Ids: ledger ids are allocated in commit order, as the comment at `src/city-credit.ts:915` assumes,
  and attempts have distinct creation times, so that the newest is the last created.
- Statement atomicity: a statement is one step. Of the credit statements only the begin reads a
  stale snapshot; complete, claim and return lock the row they decide on. The lookup by which a
  claim names its reason is taken to see the row it locks.
- Credit attempts: a credit attempt's status is pending, completed or returned. Attempts paid in
  other ways appear as rows that may open, move between statuses and block a target, without
  their own protocol.
- Request hash, canonical JSON and response bytes: terms and responses are compared as values.
- Input validation: identifier, reason, limit and byte-limit checks before the first statement,
  which only refuse, are not part of the model, nor are amounts as decimal text.
- `me` read: the around-you categories and the Gazette link are not computed; only whether the
  summary is a baseline, too large, skipped or scanned. The gift counts and the pages of founder
  issues and pending gifts are reads without effect and are not part of the model. The read
  without a transaction, for a database handle that has none, is left out too.
- Agreements: bodies, handles and event details other than the facts named in the acts are left
  out; a resident's id stands for the handle. A crafting commit resets the counter of agreement acts
  as a login of its day does, and appears as one.
- Days: a login or commit names today or an earlier day, never a later one; the clocks of the
  processes agree.
- Crafting: labels, flags and bodies of things are left out. Place permission is a set of welcome
  residents. The byte budget of a stored recipe is not part of the model. Locked rows are read as
  they are now, and open offers are a mark on the thing.
- Deflate and inflate are any pair of functions that loses nothing.
- Log scan: the server is a function of the window, which is no restriction for a scan that asks
  each window once; the shaping of single rows and the network are left out, and the order of ids
  is any total order.
- Static texts: calls, `replace` and arithmetic are not part of the model. The text `undefined` is
  an identifier without a declaration, as the parser reads it. A property initializer is taken to
  be the property's value at run time, and plus to join text.
- Sanitizer: values are finite trees whose arrays and objects carry an identity; dates, symbols
  and getters are covered by the dense and plain marks. `safeguardPublicPayload`, which works on
  JSON text, is left out.
- Exposure report: the hash is any function; the sorting of the listed ids and the target evidence
  are left out.
- Index repair: a create statement that ends leaves a row with the reviewed definition. Other
  sessions do not create or drop the reviewed indexes meanwhile. The check that a migration file is
  the reviewed one is left out.
- Termination over real time, such as a worker that never comes back, is left out; leases and
  deadlines are compared with a clock that any step may advance.

Statements about the whole program that these models do not make:

- CreditSafety.BlocksOnce: states one blocking attempt per target for unraced begins only, because
  the code does not keep it for raced ones; CreditSafety.BlocksOnceExactly has the exact condition.
- CreditSafety.NoLeaseAfterDeadline: covers begins that read a state past the deadline, because older
  snapshots may still lease; CreditSafety.LateLeaseExactly has the exact condition.
- AgreementQuota.AtMostTen: bounds the acts of a calendar day by twice the quota and for prompt logins
  only, because the commit does not look at the day and a login may set it back;
  AgreementQuota.ExceedsExactly and AgreementQuota.CountsExactly have the exact conditions.
- CraftingQuota.QuotaSafety: holds for runs without such a step only; CraftingQuota.CountsExactly has
  the exact condition.
- StaticForms.CleanIsSound: excludes operands that lead to a null arm, because soundness fails there;
  StaticForms.HarmlessExactly and StaticNulls.NullArmsExact have the exact conditions.
- LogScan.ScanExact: says "each row" only for logs with one row per request id; otherwise it says
  that each request id of the range is listed once.

Parts of the repository that would add only easy members or depend on what cannot be seen: HTTP
routes, pages and client scripts; Neon, GitHub and PayPal calls; backups and publishing; the payment
repair scripts and their flag parsers; and the other quotas, which follow the pattern of the two here.
