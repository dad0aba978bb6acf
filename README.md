# Spylolapp core, modelled in Dafny

Spylolapp is a browser riddle game ("enigmas"). Each session has a progress
record: a shuffled order of every riddle, the list of completed riddles, a
pointer to the current riddle, a points total and an eligibility flag. A
player can attach a wallet address and later be exported for a simulated
token airdrop. An access gate (an active flag plus an optional time window)
decides whether the game answers at all.

This project models the core of the game in Dafny 4.11:

- **Answer evaluator** (`answers.dfy`). `normalize_answer` collapses
  whitespace runs, strips and upper-cases. The answer column decodes into
  a list of alternatives, and a submission is matched against them.
- **Progress state machine** (`progression.dfy`, `game_routes.dfy`).
  - Record invariants:
    - the completed list has no duplicates;
    - points equal the sum of the completed riddles' points;
    - a new record's order is a permutation of the catalog.
  - The correct-answer transition, as a function on record values
    (`Progression.AnswerCorrectly`). The `game` and `submit_answer` routes
    are methods on a `UserProgress` object, proved against it.
- **Milestone messages** (`motivation.dfy`): `get_motivational_message`.
- **Wallet routes** (`wallet_routes.dfy`):
  - the address checks;
  - every connect variant, plus disconnect and claim;
  - the route's export of airdrop wallets.
- **Airdrop manager** (`airdrop.dfy`): the selection, pricing, export,
  simulated total and status update.
- **Admin access routes** (`admin_routes.dfy`): toggle and update of the
  access gate.
- **Record types** (`models.dfy`): the records, their defaults, and
  `AppConfig.is_accessible`.

Support modules:

- `wrappers.dfy`: `Option` and `Result`.
- `failures.dfy`: one failure value per error reply or escaping exception.
- `strings.dfy`: the Python string operations the core uses, on ASCII. This
  covers `isspace`, `strip`, `upper`, `lower`, `in`, `replace(x, '')`,
  `isalnum`, `str(int)` and negative slicing.

Database lookups are passed as parameters:

- `progress: UserProgress?` is the record the session id resolves to, or
  null when there is none.
- `catalog: map<int, Riddle>` holds every riddle by id.
- `config` is the configuration row, absent when the table is empty.

An exception that escapes a route rolls back the request's uncommitted
changes. It is modelled as a `Failure` result with the record unchanged.
Examples are `list.index` raising ValueError, or an attribute assignment on
a missing record.

Where the code and the documented design differ, the model follows the code.
The exceptions are the three defects listed under "## Findings". Each is
modelled twice: once as written, and once corrected. The routes use the
corrected definition: answer matching in `GameRoutes.Evaluation`,
`GameRoutes.Evaluate` and `GameRoutes.SubmitAnswer`; the toggle in
`AdminRoutes.ToggleAccess`; record creation in the connect routes.
The other differences follow the code:

- The milestone message is computed on every correct answer, repeats
  included. So a player who re-answers a riddle after finishing gets the
  final message again (routes.py:225-238).
- After a first correct answer the pointer moves to the entry that follows
  the answered id, when one exists, even if that answer completes the game.
  It does not first check for completion (routes.py:206-220).
- Records created by the wallet routes start at the first riddle by
  position (routes.py:277-286), not at the head of a shuffled order. In the
  code their order stays empty (see "## Findings"). The corrected
  `WalletRoutes.GetOrCreate` gives them an order that starts at that riddle
  and lists every other one. So they are consistent and shuffled, like the
  game page's records.
- Eligibility is set by the validated wallet connect whatever the progress
  (routes.py:291), not only by completing every riddle.

## Model

| member | source | states |
|---|---|---|
| Strings.Upper | routes.py:171 | `str.upper()` on ASCII: same length, each character upper-cased |
| Strings.Lower | routes.py:150 | `str.lower()` on ASCII: same length, each character lower-cased |
| Strings.TrimLeft | routes.py:150 | the result is a suffix of the input that does not start with whitespace (the left half of `str.strip`) |
| Strings.TrimLeftRemovesSpace | routes.py:150 | everything the left strip removes is whitespace |
| Strings.TrimRight | routes.py:150 | the result is a prefix of the input that does not end with whitespace (the right half of `str.strip`) |
| Strings.TrimRightRemovesSpace | routes.py:150 | everything the right strip removes is whitespace |
| Strings.Strip | routes.py:150 | `str.strip()`, defined as the right strip of the left strip |
| Strings.RemoveAll | routes.py:497 | `replace(pat, '')`: removes the non-overlapping occurrences scanning from the left, and never lengthens the text |
| Strings.RemoveAllKeepsOthers | routes.py:497 | `replace(pat, '')` never removes a character that the pattern does not contain |
| Strings.RemoveAllAbsent | routes.py:497 | `replace(pat, '')` is the identity when the pattern's first character does not occur |
| Strings.Decimal | routes.py:420 | `str(n)` of a non-negative int is non-empty and made of decimal digits |
| Answers.CollapseSpaces | routes.py:170 | `re.sub(r'\s+', ' ', text)`, defined one character at a time: a whitespace character followed by another is dropped, and the last of a run becomes one space (proved by `Answers.CollapseRun`) |
| Answers.Normalize | routes.py:167-171 | `normalize_answer`: collapse, then strip, then upper-case |
| Answers.NormalizeUpper | routes.py:167-171 | upper-casing a text before normalising it does not change its normal form |
| Answers.CaseInsensitive | routes.py:167-171 | two texts equal up to case have the same normal form |
| Answers.CollapseRun | routes.py:170 | after `re.sub`, any non-empty whitespace run between two texts reads exactly like one space |
| Answers.NormalizeRun | routes.py:170 | any non-empty run of whitespace between two texts normalises like a single space |
| Answers.NormalizeStrip | routes.py:170-171 | stripping a text first does not change its normal form |
| Answers.SubmissionNormalForm | routes.py:150-174 | the route's `.strip().lower()` before normalising does not change the submission's normal form |
| Answers.Alternatives | routes.py:176-185 | `possible_answers`: a decoded list as is; any other decoded value, or text that is not JSON, as a one-element list |
| Answers.AnyMatches | routes.py:187 | the corrected `any(...)`: each alternative is compared through its text, a non-string literal included (see "## Findings"; characterised by `Answers.AnyMatchesIff`) |
| Answers.AnswerMatches | routes.py:174-187 | `is_correct` for a stripped, lower-cased submission, on the corrected comparison |
| Answers.AnyMatchesIff | routes.py:187 | true iff some alternative's normal form equals the normalised submission |
| Answers.MatchesIff | routes.py:176-187 | a raw submission is correct iff its normal form equals that of some alternative |
| Answers.SingleAlternativeIff | routes.py:176-185 | for a non-list JSON value or non-JSON text, a submission is correct iff its normal form equals that of the single alternative |
| Answers.MatchAsWritten | routes.py:187 | `any(...)` as written: stops at the first matching string, and a non-string alternative reached first raises TypeError |
| Answers.AsWrittenAgreesOnText | routes.py:187 | the short-circuiting `any(...)` of the source gives the same verdict as `AnyMatches` whenever every alternative is a string |
| Answers.NonTextAnswerFails | routes.py:176-187 | an answer column that decodes to a non-string JSON value makes the source's match fail for every submission, while the corrected match accepts the literal |
| Models.UserProgress.constructor | models.py:23-39 | a new record has no wallet, empty completed and order lists, 0 points, no eligibility, status 'pending', amount 0, no hash and no sent time |
| Models.AppConfig.constructor | models.py:59-66 | a new configuration is active, has no window, has the default maintenance message, and is open at every instant |
| Models.AppConfig.IsAccessible | models.py:72-90 | closed when inactive; open when active with no window; closed strictly before a set start or strictly after a set end; in general open iff active and inside the window, both bounds included |
| Progression.IndexOf | routes.py:124 | `list.index`: -1 iff the id is absent; otherwise the first position holding it |
| Progression.SumPointsPermutation | routes.py:198-204 | the points total does not depend on the order in which riddles were completed |
| Progression.StartRow | routes.py:100-108 | a new game record starts at the first id of its order, with nothing completed, 0 points, no eligibility and no wallet |
| Progression.StartRowInvariants | routes.py:93-108 | a record created with a permutation of the catalog ids is consistent and shuffled |
| Progression.Shuffle | routes.py:97-98 | the order built for a new record lists every catalog id exactly once |
| Progression.FirstByPosition | routes.py:279 | the riddle a wallet route starts a new record at has the least position; none iff the catalog is empty |
| Progression.OrderFrom | routes.py:277-286 | the order of a record the corrected wallet connect creates: it starts at the given riddle and lists every catalog id exactly once |
| Progression.AnswerCorrectly | routes.py:196-222 | the correct-answer transition on record values; None where `list.index` raises (its properties are the lemmas below) |
| Progression.AnswerIdempotent | routes.py:198-201 | a correct answer to a completed riddle leaves the record unchanged, so a second identical answer changes nothing |
| Progression.AnswerFailsOnlyOffOrder | routes.py:212-214 | the transition fails iff a new id is missing from the order; so it never fails on a game-page record |
| Progression.AnswerAppendsOnce | routes.py:198-204 | a first correct answer appends the id exactly once, adds exactly that riddle's points, and leaves the order, wallet and airdrop columns alone |
| Progression.AnswerMovesPointer | routes.py:211-220 | the pointer becomes the entry after the answered id, or stays where it was when that id is last |
| Progression.AnswerEligibility | routes.py:206-209 | eligibility is never cleared; a first answer sets it exactly when the completed count reaches the catalog size |
| Progression.AnswerPreservesInvariants | routes.py:196-222 | the transition keeps no-duplicates, completions within the catalog, points equal to their sum, and the permutation order with a pointer inside it |
| Progression.CompletedAllIff | routes.py:206-209 | on a consistent record, the completed count never exceeds the catalog size, and reaches it iff every riddle is completed |
| Progression.EligibleIffAllSolved | routes.py:206-209 | a first answer makes a consistent record eligible iff it already was eligible or every riddle is now completed |
| Progression.PlayInOrder | routes.py:196-222 | answering the first n riddles of a new record's order, in order, completes exactly that prefix; it earns the prefix's points, leaves the pointer on the next riddle (or the last), and is eligible iff n is the whole order |
| Progression.PrefixPointsGrow | routes.py:202 | with non-negative riddle points, each answer in order raises or keeps the total |
| Motivation.Classify | routes.py:35-50 | 'progress' iff the count is positive, even and below the total; 'final' iff count ≥ total > 0; otherwise none, and never both |
| Motivation.MotivationalMessage | routes.py:11-50 | a message exists iff the classifier gives a kind; it carries that kind, that kind's title and a member of that kind's pool |
| Motivation.MilestonesOverGame | routes.py:35-50 | over the first-time completions 1..N of a game, the final message appears once and the progress message (N-1)/2 times |
| GameRoutes.Accessible | routes.py:53-62 | `check_app_access`: a missing configuration row counts as the default one, which is open |
| GameRoutes.Game | routes.py:75-136 | closed gate → unavailable. An existing record is used as is. With no record: an empty catalog is an error that creates nothing, otherwise a fresh consistent, shuffled record is made. The view shows the current riddle, the completed count, the order's length and the 1-based position |
| GameRoutes.Rejection | routes.py:142-164 | the pre-evaluation checks, each with its own failure, in the route's order: a closed gate gives Unavailable; then no session gives SessionExpired; then an empty answer or a missing or 0 id gives InvalidSubmission; then an unknown id gives EnigmaNotFound; then no record gives ProgressNotFound. A submission passes iff all of them hold |
| GameRoutes.CorrectReply | routes.py:190-238 | the reply to a correct answer: completed-all and next-riddle flags only on a first answer, the counts and points after it, and the milestone message on every correct answer |
| GameRoutes.Evaluation | routes.py:186-240 | the evaluation on record values: an incorrect answer replies with the incorrect feedback and keeps the record; a correct one applies `Progression.AnswerCorrectly`, failing with NotInOrder where `list.index` raises (its properties are the two lemmas below) |
| GameRoutes.RecordCorrectAnswer | routes.py:196-222 | the record becomes exactly the transition's result, or is unchanged when the id is not in the order; consistency, the shuffle and eligibility are preserved |
| GameRoutes.EvaluationChangesOnlyOnSuccess | routes.py:187-240 | only a correct answer that is accepted changes the record. A correct answer is accepted iff the id was already solved or is in the order. No submission takes eligibility away |
| GameRoutes.EvaluationKeepsInvariants | routes.py:196-222 | whatever the submission, consistency (no duplicates, points = their sum) and the shuffle are preserved |
| GameRoutes.Evaluate | routes.py:187-238 | the reply and the new record are exactly those of `Evaluation` on the old record: an incorrect answer replies with the incorrect feedback and changes nothing; a correct one applies the transition and replies with the flags, the counts and a milestone |
| GameRoutes.SubmitAnswer | routes.py:139-240 | a failing check answers with its failure and leaves the record unchanged; otherwise the reply and the new record are those of `Evaluation`, so the two lemmas above apply |
| WalletRoutes.HasDenyKeyword | routes.py:248-249 | the upper-cased address contains 'DEMO', 'TEST', 'SPY' or 'LOL' |
| WalletRoutes.IsValidSolanaAddress | routes.py:243-257 | valid iff the address is non-empty, has 32..44 characters, contains no deny keyword in any case, and decodes to 32 bytes |
| WalletRoutes.DemoWallet | routes.py:419-420 | the generated address: 'SPY', the last six digits of the Unix time, 'LOL' |
| WalletRoutes.WellFormedWallet | routes.py:496-498 | the format check: with '...', '-' and '_' removed, the address is non-empty and alphanumeric |
| WalletRoutes.SpyPrefixDenied | routes.py:248-249 | any address starting with 'SPY' contains a deny keyword |
| WalletRoutes.DemoWalletInvalid | routes.py:419-420 | the generated 'SPY'+digits+'LOL' address is never a valid address |
| WalletRoutes.WellFormedChars | routes.py:496-498 | an address passing the format check holds only letters, digits, '.', '-' and '_' |
| WalletRoutes.AlnumWellFormed | routes.py:496-498 | a non-empty alphanumeric address passes the format check |
| WalletRoutes.WithRealWallet | routes.py:288-291 | the validated connect sets the wallet and eligibility; every other column (pointer, progress, airdrop columns, ids) is unchanged |
| WalletRoutes.WithWallet | routes.py:422-424 | the unchecked connects set the wallet; every other column, eligibility and the pointer included, is unchanged |
| WalletRoutes.WithCheckedWallet | routes.py:513-518 | the format-checked connect sets the wallet and prices the points at 1,000,000 per point into the airdrop amount; every other column is unchanged |
| WalletRoutes.Disconnected | routes.py:544-549 | disconnect clears the wallet, hash and sent time and resets the status to 'pending'; every other column (eligibility, amount, pointer, progress) is unchanged |
| WalletRoutes.WalletUpdatesKeepProgress | routes.py:544-549 | each wallet update keeps a consistent record consistent, and a shuffled record shuffled |
| WalletRoutes.ClaimTokens | routes.py:560-582 | the claim succeeds iff there is a session and a record with a non-empty wallet and eligibility; each guard gives its own failure, in the route's order |
| WalletRoutes.ClaimAfterWalletChanges | routes.py:288-291 | a validated connect alone unlocks the claim; a disconnect locks it |
| WalletRoutes.GetOrCreateAsWritten | routes.py:276-286 | as written: the session's record, else a fresh record with every column at its default (order included) at a least-position riddle, else null for an empty catalog |
| WalletRoutes.DefaultRowStalls | routes.py:124 | a record with the default empty order cannot be played: its pointer is not in its order, so the game page fails, no first correct answer can be recorded (routes.py:214), and it is not shuffled |
| WalletRoutes.GetOrCreate | routes.py:276-286 | corrected: the session's record, else a fresh record at a least-position riddle whose order starts there and lists every riddle, so it is consistent and shuffled; else null for an empty catalog |
| WalletRoutes.ConnectWalletReal | routes.py:260-298 | a missing or invalid address fails without change; otherwise the record gets the wallet and eligibility, and a record created here is a consistent, shuffled start record; a missing record with an empty catalog fails |
| WalletRoutes.ConnectWalletSimple | routes.py:398-427 | stores the generated demo address on the found or created record (a created one is a consistent, shuffled start record); fails when neither exists |
| WalletRoutes.ConnectWalletSimplePost | routes.py:430-459 | a missing address fails without change; otherwise the address is stored on the found or created record, and success is replied even when no record exists |
| WalletRoutes.ConnectWalletForm | routes.py:461-481 | without a session or a record nothing changes; otherwise the record gets the demo address |
| WalletRoutes.ConnectWallet | routes.py:483-526 | session, body, address and format checks fail without change, in that order; otherwise the record gets the wallet and the priced amount |
| WalletRoutes.DisconnectWallet | routes.py:529-557 | without a session it fails with 'No session found', without a record with 'User progress not found', changing nothing; otherwise the record is reset as `Disconnected` says |
| WalletRoutes.ExportEntries | routes.py:303-320 | the export's entries: the rows with a wallet, eligibility, at least 50 points and no deny keyword, in input order, each priced at 1,000,000 per point |
| WalletRoutes.ExportEntriesMembers | routes.py:303-328 | every entry comes from a row with a wallet, eligibility, at least 50 points and no deny keyword, and every such row has its entry |
| WalletRoutes.ExportEntriesConcat | routes.py:311-328 | the export keeps input order: it distributes over concatenation |
| WalletRoutes.TotalIsPricedPoints | routes.py:322-329 | the exported total is the exported points times 1,000,000 |
| WalletRoutes.DemoWalletNeverExported | routes.py:313-315 | a record holding a generated demo address is never exported |
| WalletRoutes.ExportAirdropWallets | routes.py:301-331 | the loop's entries are the export of the records' rows, and its total is the sum of their amounts, which is the priced points |
| Airdrop.GetEligibleUsers | airdrop_manager.py:71-81 | empty without a configuration; otherwise exactly the users with a wallet, at least the minimum points and status 'pending' |
| Airdrop.SelectFrom | airdrop_manager.py:77-81 | the query filter over the given users: exactly those with a wallet, at least the minimum points and status 'pending' |
| Airdrop.SelectionIgnoresEligibility | airdrop_manager.py:77-81 | the selection does not look at the eligibility flag |
| Airdrop.CalculateAirdropAmount | airdrop_manager.py:83-89 | 0 without a configuration, otherwise points times the configured rate |
| Airdrop.CreateAirdropConfig | airdrop_manager.py:56-69 | the new configuration carries the given fields, defaulting to 1,000,000 tokens per point and 50 minimum points, and is active |
| Airdrop.DefaultConfigAgreesWithExport | airdrop_manager.py:56-69 | a configuration created with the defaults has the route export's 50-point minimum and prices every row as the route does (routes.py:306, 321); every pending row the route exports is selected, at the same amount |
| Airdrop.Entries | airdrop_manager.py:96-104 | exactly one entry per row, in order, each with that row's computed amount |
| Airdrop.SumAmountsPriced | airdrop_manager.py:135-140 | the summed amounts are the summed points times the configured rate |
| Airdrop.ExportAirdropData | airdrop_manager.py:91-106 | the loop's result is one entry per selected user, in order; nothing without a configuration |
| Airdrop.Recipients | airdrop_manager.py:138-145 | exactly one recipient per row, in order, with that row's wallet, points and computed amount |
| Airdrop.SimulateAirdrop | airdrop_manager.py:127-159 | fails iff there is no configuration; otherwise one recipient per selected user, and the integer total equals the sum of their amounts, the selected points times the rate |
| Airdrop.StatusUpdated | airdrop_manager.py:165-172 | the status is always overwritten; the hash and amount only by truthy values; the sent time only for 'sent'; no other column changes |
| Airdrop.UpdateAirdropStatus | airdrop_manager.py:161-175 | an unknown id changes nothing; otherwise the record becomes `StatusUpdated` of its old value |
| Airdrop.SentLeavesSelection | airdrop_manager.py:77-81 | a record marked 'sent' is no longer selected |
| AdminRoutes.ToggleAsWritten | routes.py:670 | `not app_active` as written, where a value that is not yet stored reads as None, which is falsy |
| AdminRoutes.ToggleAsWrittenKeepsNewConfigOpen | routes.py:665-670 | as written, toggling with no configuration row stores active, which is what the default already was |
| AdminRoutes.Toggle | routes.py:670 | the stored flag is the opposite of the flag in effect, and agrees with the source whenever a row exists |
| AdminRoutes.ToggleAccess | routes.py:662-679 | the flag in effect is flipped; the window and message are kept; the reply reports the new flag and the gate's verdict |
| AdminRoutes.UpdateAccess | routes.py:621-659 | stores the posted flag (default true), message (default 'App is temporarily unavailable') and bounds; the reply is open iff active and inside the new window |

## Left out

- Flask routing, templates, redirects, JSON replies and the session
  cookie. Routes take the session's presence or id as a parameter and
  return a `Result`. Reply messages are represented by `Failure` values,
  not their text.
- SQLAlchemy persistence and commits. The JSON text encoding of the
  completed and order columns is modelled as `seq<int>`, and the answer
  column as the `AnswerField` it decodes to (parsing JSON text is not
  modelled). Lookups are parameters.
- `check_app_access` inserts a default configuration row when none exists.
  The model treats a missing row as that default, but does not model the
  insert.
- Randomness. `random.shuffle` is any permutation, chosen element by
  element in `Progression.Shuffle`. `random.choice` is an index parameter
  `pick`.
- Base58 decoding, which is a library call: `decodesTo32Bytes` is its
  verdict.
- Floating point: `progress_percentage` and the `/ 10**6` conversions of
  the simulation. The simulation keeps the integer amounts.
- Timestamps: `last_active`, `updated_at`, `created_at` and `isoformat`.
  The parsing of admin ISO datetimes is left out too: instants are
  integers, and an unparsable bound arrives as None.
- The Solana RPC client and keypair, the file export, the CLI, the seeding
  in game_data.py, and the read-only pages (index, profile, wallet, hint,
  access-control view).
- Concurrent requests on one record, which rely on database transactions.
- Non-ASCII whitespace and case mapping.
- A non-string `answer`, or an `enigma_id` that is not an integer, in the
  request body. The model's `enigma_id` is always an integer. So it does not
  capture that routes.py:201 checks the raw JSON id against the stored
  list with `in`. Submitting `"3"` after `3` (or the reverse) therefore
  passes the repeat check, appends the riddle again and adds its points
  twice.
- A missing `get_json()` body in the admin update.
- AdminRoutes.UpdateAccess: a posted JSON `null` is not modelled. The posted
  flag is `Option<bool>`, where None means absent and stores the default
  true. The source stores whatever `data.get('app_active', True)` returns
  (routes.py:631). An explicit `"app_active": null` therefore stores None,
  which `is_accessible` reads as inactive, closing the gate (models.py:74-75).
  Likewise a posted `null` maintenance message is stored as None, not as the
  default text.
- WalletRoutes.IsValidSolanaAddress, WalletRoutes.WellFormedWallet: a
  `wallet_address` that is not a JSON string is not modelled; addresses are
  text. In the source, a number makes `len` raise TypeError
  (routes.py:245-246) and `.replace` raise AttributeError (routes.py:497).
  Either way the request fails with a server error before any change.

## Findings

| source | as written | input that shows it | evidently intended | confidence | as-written member | corrected member |
|---|---|---|---|---|---|---|
| routes.py:176-187 | an answer column that `json.loads` decodes to a non-string, non-list value is passed to `normalize_answer`, whose `re.sub` raises TypeError, so every submission to that riddle fails with a server error | answer column text `1947` (also `true`, `null`) | compare the submission against the value's text, so that `1947` is accepted | not executed; high | Answers.MatchAsWritten, shown by Answers.NonTextAnswerFails | Answers.AnyMatches, with Answers.AnyMatchesIff and Answers.MatchesIff; used by GameRoutes.Evaluation, GameRoutes.Evaluate and GameRoutes.SubmitAnswer |
| routes.py:665-670 | with no configuration row, the new `AppConfig()` is not yet inserted, so `app_active` reads as None and `not None` stores True: the first toggle leaves the app open | POST to the toggle route while the configuration table is empty | flip the flag in effect (the default, active) and close the app | not executed; medium | AdminRoutes.ToggleAsWritten, shown by AdminRoutes.ToggleAsWrittenKeepsNewConfigOpen | AdminRoutes.Toggle, used by AdminRoutes.ToggleAccess |
| routes.py:277-286 | a record created by a wallet connect sets only the session id and the pointer, so its order keeps the default `'[]'` (models.py:30). The game page's `enigma_order.index` (routes.py:124) then raises ValueError on every visit, and so does the first correct answer (routes.py:214) | POST a valid address to `/connect_wallet_real` from a fresh session, then open `/game` | create the record with an order that starts at the first riddle and lists every riddle, as the game page does | not executed; high | WalletRoutes.GetOrCreateAsWritten, shown by WalletRoutes.DefaultRowStalls | WalletRoutes.GetOrCreate, used by every connect route that creates a record |
