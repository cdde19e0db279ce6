# Wisselwerking registration core, modelled in Dafny

Wisselwerking is an exchange programme. Staff register for exchange sessions
hosted by departments, and an organising team assigns them to sessions. This
project models the core of the application and proves properties of it.

- **Allocator** (`Assign`): the `assign` management command. It clears the
  active exchange's assignments and marks every requestor unassigned. It then
  walks the priorities 1..max and, within a priority, the registrations in
  `date_time` order, placing each still-unassigned requestor greedily while the
  session has capacity. A registration without a session sends the requestor to
  the "random" pool. Afterwards the command reports empty and under-filled
  sessions and places the pool through a validated manual choice. The command is
  a state machine on values (`AllocState`) with invariants, plus the class
  `Allocator`, whose methods update its fields in place and are each tied to one
  step of the state machine.
- **Import normalisers** (`Import`):
  - `capitalize`, with the Dutch IJ rule;
  - the tussenvoegsel/surname split;
  - department renaming and lookup;
  - fresh user names;
  - `dept_session`;
  - the loop that turns the three choice columns of a row into registrations.
- **History statistics** (`History`): the enrollment rows with their
  `hoeveelste_keer` numbering, the per-year dicts, the new-versus-returning table,
  the participation histogram and the departments-per-year table.
- **Organizer mails** (`OrganizersMail`, `MailMerge`): `conjunct`, the
  receivers, the choice of template language, the assignment list,
  `prepare_mail`, `mail_info` and the `{{key}}` placeholder fill.
- **Registration API** (`Views`): the `full` flag, the `format_data` summary
  and `register`, which replaces a requestor's registrations for the active
  exchange.
- **Model helpers** (`Models`):
  - `full_name` and `get_affiliation`;
  - the slug and username pre-save hooks;
  - the single-active-exchange hook;
  - `get_prefer_dutch_name`;
  - the `PersonMail.save` guard;
  - the record merge `move_to`.
- **Frontend** (`RegistrationService`, `ExchangeSessionView`): the
  registration service, which titles and sorts the sessions and keeps the
  priority list. Also the exchange-session component, which formats one
  session.
- **Support modules**:
  - `Text`: ASCII case mapping, `join`, `split`, `replace`, `strip`, `re.sub`
    run collapsing, decimal rendering.
  - `Tally`: counting dicts and sums.
  - `Ordering`: JavaScript string order and a stable sort.
  - `Domain`: shared records.
  - `Wrappers`: `Option` and `Result`.

Database tables are in-memory sequences, maps and sets. Console input is a
sequence of answers. The clock is a parameter.

## Model

| member | source | states |
|---|---|---|
| Assign.Cleared | backend/registration/management/commands/assign.py:21-23 | every session of the active exchange has no assignees afterwards; every other session keeps its assignees |
| Assign.RequestorsOf | backend/registration/management/commands/assign.py:30-33 | the requestors are exactly the persons who hold some registration |
| Assign.MarkShape | backend/registration/management/commands/assign.py:30-33 | marking adds the registrations' requestors to both the requestors and the unassigned set, and changes nothing else |
| Assign.MarkInv | backend/registration/management/commands/assign.py:30-33 | after marking, every requestor is unassigned, nobody is in the pool and nobody is placed |
| Assign.AddUnassignedInv | backend/registration/management/commands/assign.py:30-33 | adding unplaced persons as unassigned requestors keeps the three places disjoint |
| Assign.StartInv | backend/registration/management/commands/assign.py:18-28 | the state after clearing satisfies the allocator invariant |
| Assign.CacheCapacity | backend/registration/management/commands/assign.py:91-100 | after a lookup, the capacity and count caches hold the session, and both caches keep the same keys |
| Assign.CacheInv | backend/registration/management/commands/assign.py:91-100 | on first lookup, capacity + count equals participants_max * session_count; the lookup keeps the invariant and moves nobody |
| Assign.Place | backend/registration/management/commands/assign.py:140-148 | a placement keeps the two caches in step |
| Assign.PlacedInAfterPlace | backend/registration/management/commands/assign.py:140-148 | a placement adds the person to the placements of exactly the chosen session |
| Assign.PlaceInv | backend/registration/management/commands/assign.py:140-148 | placing a not-yet-placed person into a session with a seat left keeps the whole invariant |
| Assign.PlacePeople | backend/registration/management/commands/assign.py:145-146 | placing keeps every requestor in exactly one of unassigned, pool or placed |
| Assign.PlaceSeats | backend/registration/management/commands/assign.py:142-143 | capacity goes down and count goes up together, so capacity + count stays the effective capacity and capacity never goes below zero |
| Assign.PlaceMembers | backend/registration/management/commands/assign.py:148 | the assignees of the active exchange's sessions are exactly this run's placements |
| Assign.Attempt | backend/registration/management/commands/assign.py:124-138 | attempt_placement keeps the caches in step |
| Assign.AttemptInv | backend/registration/management/commands/assign.py:124-138 | attempt_placement keeps every requestor in exactly one place; a registration without a session moves its unassigned requestor from the unassigned set to the pool and leaves seats, counts, placements and assignees unchanged |
| Assign.RoundPrefix | backend/registration/management/commands/assign.py:52-54 | one priority round over the registrations in date_time order keeps the caches in step |
| Assign.RoundInv | backend/registration/management/commands/assign.py:52-54 | a round keeps every requestor in exactly one place |
| Assign.PassUpTo | backend/registration/management/commands/assign.py:51-54 | the rounds for priorities 1..k keep the caches in step |
| Assign.PassInv | backend/registration/management/commands/assign.py:51-54 | after the pass, every requestor is in exactly one of the unassigned set, the pool or one session |
| Assign.GrowsTrans | backend/registration/management/commands/assign.py:124-148 | "only grows" (no one becomes unassigned again, capacities only drop, placements stay) composes |
| Assign.AttemptGrows | backend/registration/management/commands/assign.py:124-138 | an attempt never undoes a placement or gives back a seat |
| Assign.RoundGrows | backend/registration/management/commands/assign.py:52-54 | a round never undoes a placement or gives back a seat |
| Assign.PassGrows | backend/registration/management/commands/assign.py:51-54 | placements made at an earlier priority are never undone by a later one |
| Assign.SettledStays | backend/registration/management/commands/assign.py:124-138 | a registration that is dealt with stays dealt with as the run goes on |
| Assign.AttemptSettles | backend/registration/management/commands/assign.py:124-138 | after an attempt, the requestor is no longer unassigned or the session asked for is full |
| Assign.RoundSettles | backend/registration/management/commands/assign.py:52-54 | after a round, every registration of that priority is dealt with |
| Assign.RoundGrowsBetween | backend/registration/management/commands/assign.py:52-54 | between any two points of a round, placements stay, capacities only drop and nobody becomes unassigned again |
| Assign.PassSettles | backend/registration/management/commands/assign.py:51-54 | after the rounds 1..k, a requestor still unassigned asked, at each of those priorities, only for full sessions |
| Assign.AttemptRequested | backend/registration/management/commands/assign.py:136-138 | an attempt only places a requestor in the session of that registration |
| Assign.RoundRequested | backend/registration/management/commands/assign.py:52-54 | a round places requestors only in sessions they asked for |
| Assign.PassRequested | backend/registration/management/commands/assign.py:51-54 | the pass places requestors only in sessions they asked for |
| Assign.NeverOverCapacity | backend/registration/management/commands/assign.py:136-143 | no session holds more of this run's placements than participants_max * session_count, and an active session's assignees are its placements |
| Assign.AskFor | backend/registration/management/commands/assign.py:102-122 | the manual choice keeps the caches in step and reads answers only from the given stream |
| Assign.AskForShape | backend/registration/management/commands/assign.py:107-122 | the person ends up placed in a session of the active exchange, or the answers ran out and nobody was placed; the unassigned set is untouched |
| Assign.AskForInv | backend/registration/management/commands/assign.py:107-122 | placing a pool member by the checked manual choice (capacity first, then exchange) keeps the invariant |
| Assign.ManualPrefix | backend/registration/management/commands/assign.py:83-84 | the manual phase over a prefix of the pool keeps the caches in step |
| Assign.ManualShape | backend/registration/management/commands/assign.py:83-84 | the manual phase leaves the three sets alone and places only the pool members it has reached |
| Assign.ManualPlaces | backend/registration/management/commands/assign.py:83-84 | every pool member reached is placed in a session of the active exchange, unless the answers ran out |
| Assign.ManualInv | backend/registration/management/commands/assign.py:83-84 | the manual phase keeps the invariant |
| Assign.ReportOf | backend/registration/management/commands/assign.py:58-65 | a reported session is one of the active exchange's sessions |
| Assign.MembersCount | backend/registration/management/commands/assign.py:62-64 | an active session's assignee count equals its placement count, and a session never looked up has no assignees |
| Assign.ReportMeaning | backend/registration/management/commands/assign.py:58-65 | under the invariant the report never hits the KeyError; it lists exactly the sessions with nobody assigned as empty, and exactly those with some placements but fewer than participants_min as too low |
| Assign.ReportErrSticks | backend/registration/management/commands/assign.py:61-65 | once the walk over the sessions raises, the report is that error |
| Assign.MaxPriorityOf | backend/registration/management/commands/assign.py:38-44 | the highest priority is at least 1, bounds every registration's priority, and is 1 or some registration's priority |
| Assign.MaxPriority | backend/registration/management/commands/assign.py:38-44 | the loop computes the highest priority as specified |
| Assign.AfterMarkFacts | backend/registration/management/commands/assign.py:18-33 | after clearing and marking, every requestor of the registrations is unassigned and nothing is placed or in the pool |
| Assign.PassOutcome | backend/registration/management/commands/assign.py:18-54 | after the pass, every requestor is in exactly one place; nobody is placed in a session they did not ask for; a requestor still unassigned asked only for full sessions |
| Assign.PassReport | backend/registration/management/commands/assign.py:56-65 | the invariant holds after the pass; the report succeeds and names exactly the empty and the under-filled sessions |
| Assign.ManualOutcome | backend/registration/management/commands/assign.py:83-84 | after the manual phase the invariant holds, the pass's placements stay, and every pool member is in an active session unless the answers ran out |
| Assign.EarlierRequestWins | backend/registration/management/commands/assign.py:26-28 | an illustration: two first-priority requests for a one-seat session; the earlier registration gets the seat and the later requestor stays unassigned |
| Assign.EarlierRequestFirst | backend/registration/management/commands/assign.py:26-28 | for all inputs: when an earlier registration of a priority leaves its requestor unassigned, a later registration of that priority for the same session changes nothing |
| Assign.EarlierRequestFirstByTime | backend/registration/management/commands/assign.py:26-28 | for registrations of the active exchange ordered by date_time: a request registered strictly later than one that left its requestor unassigned, at the same priority and for the same session, comes later and changes nothing |
| Assign.AttemptBookkeeping | backend/registration/management/commands/assign.py:124-138 | attempt_placement reads only the sets, caches and placements, never the assigned relations: two states that differ only there stay so |
| Assign.AttemptTracks | backend/registration/management/commands/assign.py:124-138 | attempt_placement adds the requestor to a session's assigned relation exactly when it places them there |
| Assign.AskForRerun | backend/registration/management/commands/assign.py:107-122 | assign_random reads only the sets, caches, placements and answers, and adds the person to exactly the session it places them in |
| Assign.PassFromAny | backend/registration/management/commands/assign.py:18-54 | from any earlier assignments the pass reaches the same sets, caches and placements, and every assigned relation ends as the cleared one plus the pass's placements there |
| Assign.RunFromAny | backend/registration/management/commands/assign.py:18-88 | the same for the whole command with the same answers typed |
| Assign.PassIdempotent | backend/registration/management/commands/assign.py:18-54 | running the pass again on the assignments it left, with the same registrations, gives the same state |
| Assign.RunIdempotent | backend/registration/management/commands/assign.py:18-88 | running the whole command again on the assignments it left, with the same registrations and answers, gives the same state: the active exchange's sessions are refilled identically and every other session already holds what the run adds |
| Assign.Allocator.constructor | backend/registration/management/commands/assign.py:10-16 | a fresh allocator per run, with empty sets and caches |
| Assign.Allocator.ClearAssignments | backend/registration/management/commands/assign.py:21-23 | empties the assignees of the active exchange's sessions in place |
| Assign.Allocator.MarkRequestors | backend/registration/management/commands/assign.py:30-33 | the loop marks every requestor, as MarkShape describes |
| Assign.Allocator.GetCapacity | backend/registration/management/commands/assign.py:91-100 | returns the cached capacity, filling both caches on first lookup |
| Assign.Allocator.PerformPlacement | backend/registration/management/commands/assign.py:140-148 | updates the fields as Place does |
| Assign.Allocator.AttemptPlacement | backend/registration/management/commands/assign.py:124-138 | updates the fields as Attempt does |
| Assign.Allocator.PriorityPass | backend/registration/management/commands/assign.py:51-54 | the nested priority/registration loops reach the state PassUpTo specifies |
| Assign.Allocator.ReportSessions | backend/registration/management/commands/assign.py:58-65 | the loop builds the report ReportOf specifies |
| Assign.Allocator.AssignRandom | backend/registration/management/commands/assign.py:102-122 | the retry loop reaches the state AskFor specifies |
| Assign.Allocator.RunPass | backend/registration/management/commands/assign.py:18-54 | over the active exchange's registrations ordered by date_time, clear, mark and the pass reach AfterPass |
| Assign.Allocator.AssignPool | backend/registration/management/commands/assign.py:83-84 | the loop over the pool reaches the state ManualPrefix specifies |
| Assign.Allocator.Handle | backend/registration/management/commands/assign.py:18-88 | the whole command over the active exchange's registrations ordered by date_time: the report is the one after the pass and always succeeds, the invariant holds at the end, and the final state is AfterRun, which RunIdempotent shows idempotent |
| Import.Capitalize | backend/registration/management/commands/import.py:231-252 | the loop computes the capitalisation Capitalized describes |
| Import.CapPrefixShape | backend/registration/management/commands/import.py:231-252 | the loop state after i characters: i output characters, capitalize_next set exactly after a separator or at the start, prev the last output character |
| Import.CapitalizedChars | backend/registration/management/commands/import.py:231-252 | same length; separators are copied; the first character and every character after a separator are upper-cased; a j after an output I becomes J; everything else is lower-cased |
| Import.CapitalizeIdempotent | backend/registration/management/commands/import.py:231-252 | capitalising a capitalised name changes nothing |
| Import.IJssel | backend/registration/management/commands/import.py:244-248 | "ijssel" becomes "IJssel" |
| Import.Dijk | backend/registration/management/commands/import.py:244-248 | "dijk" becomes "Dijk": a j after anything but I stays lower case |
| Import.LowerAll | backend/registration/management/commands/import.py:262-265 | each token lower-cased, position by position |
| Import.Leading | backend/registration/management/commands/import.py:260-266 | the leading run: every token before the index is a particle, and the token at it is not |
| Import.SortedTokensSplit | backend/registration/management/commands/import.py:260-266 | the prefix holds exactly the leading particles, lowered, and the surname holds every token from the first non-particle on |
| Import.SortTokens | backend/registration/management/commands/import.py:260-266 | the token loop puts the lowered leading particles in the prefix and the rest in the surname |
| Import.FormatLastName | backend/registration/management/commands/import.py:255-271 | format_last_name returns the lowered particle prefix and the capitalised surname |
| Import.NoParticleNoPrefix | backend/registration/management/commands/import.py:255-271 | without a leading particle the prefix is empty and the whole stripped name is capitalised |
| Import.TwoParticles | backend/registration/management/commands/import.py:255-271 | "Van Der Berg"-shaped input: both particles go lower-cased to the prefix |
| Import.NormaliseDept | backend/registration/management/commands/import.py:219-222 | the result is in normal form: no en dash, whitespace only as single spaces, nothing to strip at either end |
| Import.NormaliseIdempotent | backend/registration/management/commands/import.py:219-222 | normalising twice is normalising once |
| Import.RenameDept | backend/registration/management/commands/import.py:219-226 | the result is a target of the renames table, or a normal-form name the table does not rename; a normal-form name the table does not know comes back unchanged |
| Import.RenameNormalForm | backend/registration/management/commands/import.py:219-226 | renaming depends only on the normal form of the name |
| Import.NormaliseNormal | backend/registration/management/commands/import.py:219-222 | a name already in normal form is left unchanged |
| Import.Entries | backend/registration/management/commands/import.py:47-51 | one entry per renames.csv row, in order |
| Import.BuildRenames | backend/registration/management/commands/import.py:47-51 | the loop builds the table that files each target under the old key and under its own lower-cased key |
| Import.TargetMapsToItself | backend/registration/management/commands/import.py:47-51 | each target is filed under its own key unless a later row files another target there |
| Import.RenamedTargetIsFixed | backend/registration/management/commands/import.py:47-51 | renaming a normal-form target that no later row overrides gives it back: renaming is a fixed point on targets |
| Import.LookupDept | backend/registration/management/commands/import.py:207-218 | an ignored name gives no department; a known name gives its department; an unknown name is an error exactly when fail_on_key_error is set |
| Import.LookupModes | backend/registration/management/commands/import.py:207-218 | without fail_on_key_error the lookup never fails, and it agrees with the strict lookup wherever that succeeds |
| Import.DigitsSurvive | backend/registration/management/commands/import.py:79 | normalisation keeps trailing digits, so the candidate is at least as long as its number |
| Import.NumberedCandidateLength | backend/registration/management/commands/import.py:77-79 | the numbered candidate n is at least as long as the decimal of n |
| Import.MaxLength | backend/registration/management/commands/import.py:80-83 | a bound on the length of every taken name |
| Import.BoundIsFree | backend/registration/management/commands/import.py:73-83 | some numbered candidate is longer than every taken name, so the search ends |
| Import.FirstFreeFrom | backend/registration/management/commands/import.py:73-83 | the first free round from i on: every round before it is taken |
| Import.FirstFree | backend/registration/management/commands/import.py:66-83 | the round in which the search returns: its name is free and every earlier round's name is taken |
| Import.UniqueUsername | backend/registration/management/commands/import.py:66-83 | the returned name is never taken, and it is the first free candidate in the order: first name, full name, full name 2, 3, ... |
| Import.FirstSession | backend/registration/management/commands/import.py:192-194 | the lowest-pk session of the department in the exchange, or none when there is none |
| Import.DeptSessionOf | backend/registration/management/commands/import.py:191-204 | returns the first matching session, or appends one with the defaults 0/999/999 exactly when none matched |
| Import.DeptSessionIdempotent | backend/registration/management/commands/import.py:191-204 | asking again finds the session made the first time and adds nothing |
| Import.MatchCountZero | backend/registration/management/commands/import.py:178-180 | a get finds nothing exactly when no registration has the (person, session) pair |
| Import.UniqueCountAtMostOne | backend/registration/management/commands/import.py:178-180 | with unique pairs, a get never finds two registrations |
| Import.RegisterFacts | backend/registration/management/commands/import.py:178-186 | the get-or-create keeps pairs unique, never fails, and only adds this row's registrations |
| Import.ChoiceStepFacts | backend/registration/management/commands/import.py:168-186 | one choice column keeps pairs unique, never meets two registrations of a pair, and only adds this row's registrations |
| Import.ChoicesKeepPairsUnique | backend/registration/management/commands/import.py:167-186 | a row leaves at most one registration per (person, session), so it can fail only on an unknown department |
| Import.ChoicesExtend | backend/registration/management/commands/import.py:167-186 | a row keeps what was stored and adds only the person's registrations, at the priorities of non-dash columns |
| Import.DashRowChangesNothing | backend/registration/management/commands/import.py:169-171 | a row whose choice columns are all dashes changes nothing |
| Import.KnownChoiceRegisters | backend/registration/management/commands/import.py:172-186 | a column naming a known department leaves the person registered for that department's session in the exchange |
| Import.ImportStore.constructor | backend/registration/management/commands/import.py:191-204 | the store starts from the given tables |
| Import.ImportStore.DeptSession | backend/registration/management/commands/import.py:191-204 | updates the sessions as DeptSessionOf does and leaves the registrations alone |
| Import.ImportStore.ImportChoices | backend/registration/management/commands/import.py:167-186 | the loop over the three columns with priorities 1, 2, 3 reaches the state and error ChoicesFrom specifies |
| History.HowManysCount | backend/registration/management/commands/history.py:70-75 | an entry's how_many is the number of appearances of its person up to and including it |
| History.GetEnrollments | backend/registration/management/commands/history.py:54-87 | the header keys, then one row per assignment in walk order with count 1 and its how_many |
| History.HowManyFirst | backend/registration/management/commands/history.py:70-75 | how_many is 1 exactly at a person's first appearance |
| History.HowManyNext | backend/registration/management/commands/history.py:70-75 | how_many rises by exactly one between consecutive appearances of a person |
| History.HowManyLast | backend/registration/management/commands/history.py:70-75 | at a person's last appearance how_many is their number of assignments |
| History.PerYearMeans | backend/registration/management/commands/history.py:89-108 | the keys of both dicts are exactly the years of the walk; each year maps to that year's persons, and to their enrollments, in walk order |
| History.PerYearKeys | backend/registration/management/commands/history.py:101-106 | a year is a key of both dicts exactly when it occurs in the walk |
| History.PerYearStep | backend/registration/management/commands/history.py:101-106 | one more assignment appends to both lists of its year in lockstep, or starts both, and a new year joins the key order |
| History.PerYearEnrollment | backend/registration/management/commands/history.py:89-108 | the loop builds both dicts as PerYearMeans describes, with keys in order of first appearance |
| History.InYearCount | backend/registration/management/commands/history.py:101-106 | a year's list is as long as the number of times the year occurs |
| History.YearSizesCounts | backend/registration/management/commands/history.py:101-106 | the list lengths are the year counts |
| History.PerYearPartition | backend/registration/management/commands/history.py:89-108 | the years' lists partition the walk: their lengths add up to the number of assignments |
| History.SortedYears | backend/registration/management/commands/history.py:121 | the years, ascending, each once |
| History.PreviousYears | backend/registration/management/commands/history.py:114 | all years but the last, ascending, each below the last |
| History.ClassifyEarliest | backend/registration/management/commands/history.py:124-130 | an entry is counted under the earliest listed earlier year in which the person appears, and as completely new exactly when there is none |
| History.ClassTagsDistinct | backend/registration/management/commands/history.py:114-116 | the count keys (each earlier year, and completely new) are pairwise distinct |
| History.Classify | backend/registration/management/commands/history.py:124-130 | an entry is classed under one of the earlier years, or as completely new |
| History.ClassCountsMeans | backend/registration/management/commands/history.py:123-128 | the counts dict keeps its zeroed keys and adds to each the number of entries classed under it |
| History.NewRowsAt | backend/registration/management/commands/history.py:121-137 | row i of the table is the row of the i-th year in ascending order |
| History.NewParticipantsEachYear | backend/registration/management/commands/history.py:110-139 | the fieldnames are the years column, the years but the last, and completely_new; one row per year, ascending |
| History.ClassesStep | backend/registration/management/commands/history.py:124-130 | classifying one more entry increments exactly its class's counter, or the new count |
| History.YearRow | backend/registration/management/commands/history.py:122-134 | one iteration of the year loop builds that year's row |
| History.FirstEarlierYear | backend/registration/management/commands/history.py:125-130 | the inner for-else finds the earliest earlier year listing the person, or reports none |
| History.RowTotal | backend/registration/management/commands/history.py:121-133 | each entry of a year is counted once: the earlier-year counts plus completely_new equal the year's entry count |
| History.PrevSumCounts | backend/registration/management/commands/history.py:132-134 | the earlier-year columns of a row add up to the number of entries classed under some earlier year |
| History.FirstYearAllNew | backend/registration/management/commands/history.py:123-130 | in the earliest year every earlier-year count is 0 and completely_new is the year's entry count |
| History.Histogram | backend/registration/management/commands/history.py:141-164 | the rows map each times value to the number of participants assigned exactly that many times, ascending by times |
| History.CountParticipants | backend/registration/management/commands/history.py:145-156 | the counting dict gives each participant's number of assignments, keys in order of first appearance |
| History.CountTimes | backend/registration/management/commands/history.py:157-161 | the second dict counts participants per number of assignments |
| History.LookedTimes | backend/registration/management/commands/history.py:157 | reading the counts in key order gives each participant's number of assignments |
| History.HistogramKeys | backend/registration/management/commands/history.py:163 | every sorted key is in the histogram with its number of occurrences |
| History.HistogramCountsParticipants | backend/registration/management/commands/history.py:157-163 | the counts sum to the number of distinct participants |
| History.HistogramTotal | backend/registration/management/commands/history.py:157-163 | the sum of times * count is the total number of assignments |
| History.ColumnsAreCountSums | backend/registration/management/commands/history.py:157-163 | the histogram's count column and its times * count column are the sums of the per-value counts |
| History.DeptsRowOf | backend/registration/management/commands/history.py:172-185 | both department counts are at most the year's enrollment count, and at least 1 for a year with enrollments |
| History.DeptsRowsAt | backend/registration/management/commands/history.py:172-185 | row k is the row of the k-th year with that year's enrollments |
| History.OrderKeys | backend/registration/management/commands/history.py:172 | every year of the walk is a key of per_year_enrollment |
| History.DeptsRowsMeans | backend/registration/management/commands/history.py:166-187 | one row per year in key order, counting the distinct departments among that year's enrollments |
| History.DeptsHistogram | backend/registration/management/commands/history.py:166-187 | the header, then the rows DeptsRowsMeans describes |
| History.YearDepts | backend/registration/management/commands/history.py:173-177 | one iteration collects the two department sets of a year |
| MailMerge.Placeholder | backend/registration/management/commands/organizers_mail.py:145 | a placeholder is the key between double braces |
| MailMerge.FillPlaceholders | backend/registration/management/commands/organizers_mail.py:143-147 | the loop replaces every placeholder of the data's keys, keys in dict order |
| MailMerge.FillAbsent | backend/registration/views.py:236-240 | a text without any of the placeholders is returned unchanged |
| MailMerge.FillSingle | backend/registration/management/commands/organizers_mail.py:143-147 | a template with one placeholder gets the value in its place |
| MailMerge.FillInOrder | backend/registration/management/commands/organizers_mail.py:144-145 | keys are applied in order, so a value holding a later key's placeholder is filled in too |
| MailMerge.ReplacePlainPrefix | backend/registration/management/commands/organizers_mail.py:145 | replacement passes unchanged over text without the pattern's first character |
| OrganizersMail.Conjunct | backend/registration/management/commands/organizers_mail.py:123-127 | fails exactly on an empty list |
| OrganizersMail.ConjunctJoin | backend/registration/management/commands/organizers_mail.py:123-127 | one item is returned as it is; two or more are all but the last joined by ", ", then CONJUNCT[language], then the last |
| OrganizersMail.ConjunctTwo | backend/registration/management/commands/organizers_mail.py:23 | two names are joined by " and " or " en " alone |
| OrganizersMail.FormatMailPersonSplit | backend/registration/management/commands/organizers_mail.py:130-131 | the name and the address can be read back from "Full Name <email>" |
| OrganizersMail.Receivers | backend/registration/management/commands/organizers_mail.py:64-67 | the organizers formatted and joined by ", ", or the department email when there are none |
| OrganizersMail.MailLanguage | backend/registration/management/commands/organizers_mail.py:83-87 | the language is English exactly when some organizer's language is English |
| OrganizersMail.GetMail | backend/registration/management/commands/organizers_mail.py:82-92 | the loop returns the template SelectedMail specifies |
| OrganizersMail.SelectedMailLanguage | backend/registration/management/commands/organizers_mail.py:82-92 | the English template when an organizer is English and it exists; otherwise the Dutch one, or DoesNotExist |
| OrganizersMail.AssignedLinesStep | backend/registration/management/commands/organizers_mail.py:77-78 | each person adds their entry at the end, as intended and as written |
| OrganizersMail.FormatAssigned | backend/registration/management/commands/organizers_mail.py:75-80 | one entry per assigned person, joined by newlines (corrected precedence) |
| OrganizersMail.FormatAssignedAsWritten | backend/registration/management/commands/organizers_mail.py:75-80 | the loop as written, joined by newlines |
| OrganizersMail.AssignedAsWrittenDropsUnmarked | backend/registration/management/commands/organizers_mail.py:78 | as written, an unmarked person yields ""; as intended, " - Name <email>" |
| OrganizersMail.AssignedLineMarked | backend/registration/management/commands/organizers_mail.py:78 | an entry carries the English mark exactly when marking is on and the person speaks English |
| OrganizersMail.AssignedListSplits | backend/registration/management/commands/organizers_mail.py:80 | the list splits back into one entry per person |
| OrganizersMail.LineWithoutNewline | backend/registration/management/commands/organizers_mail.py:78 | an entry holds a newline only where the formatted person does |
| OrganizersMail.OrganizerNames | backend/registration/management/commands/organizers_mail.py:103-109 | "organisator" without organizers; one organizer's stripped given name alone |
| OrganizersMail.PrepareMail | backend/registration/management/commands/organizers_mail.py:94-120 | subject and text are the templates filled with the five data items, in order (corrected program, see ## Findings) |
| OrganizersMail.MailDataMeaning | backend/registration/management/commands/organizers_mail.py:111-119 | five items; count is the decimal of the number assigned and determines it; "organisator" without organizers; marking is on exactly for Dutch mails |
| OrganizersMail.TeamString | backend/registration/management/commands/organizers_mail.py:150-153 | the team members' full names in order, joined by ", " |
| OrganizersMail.SessionRow | backend/registration/management/commands/organizers_mail.py:62-71 | a session's row: its receivers and the filled template (corrected program, see ## Findings) |
| OrganizersMail.MailRowsMeaning | backend/registration/management/commands/organizers_mail.py:45-73 | there are rows exactly when every session has a template; then row k belongs to session k |
| OrganizersMail.MailRowsErrKept | backend/registration/management/commands/organizers_mail.py:50-58 | the first session without a template stops the command with that error |
| OrganizersMail.MailRowsStep | backend/registration/management/commands/organizers_mail.py:50-71 | one more session adds its row or fails with its template's error |
| OrganizersMail.MailInfo | backend/registration/management/commands/organizers_mail.py:45-73 | the loop yields the rows MailRows specifies, with the team string (corrected program, see ## Findings) |
| Views.Full | backend/registration/views.py:73-76 | a full session has more registrations than its capacity |
| Views.FirstChoices | backend/registration/views.py:74 | the first-choice count never exceeds the number of registrations |
| Views.FullNeedsOneSpare | backend/registration/views.py:73-76 | first choices exactly at capacity are not full; one more first choice makes the session full, and nothing else does |
| Views.FullStaysFull | backend/registration/views.py:73-76 | adding registrations never makes a full session not full |
| Views.FirstChoicesGrow | backend/registration/views.py:74 | adding registrations never lowers the first-choice count |
| Views.FormatDataLines | backend/registration/views.py:217-233 | the summary is nine lines; when no title is "Verras mij", a choice is "Verras mij" exactly for a registration without a session |
| Views.RegisterKey | backend/registration/views.py:107 | the lookup key has no upper-case letter, keeps the length and is its own lower case |
| Views.RegisterKeyCaseInsensitive | backend/registration/views.py:107 | addresses differing only in case find the same person |
| Views.AddPersonHook | backend/registration/models.py:341-350 | afterwards some person holds the user; a user that had one keeps it |
| Views.NewAddressAsWrittenFails | backend/registration/views.py:115-124 | as written, an unknown address always fails with the one-to-one user clash, leaving the hook's bare person stored |
| Views.NewAddressOnePerson | backend/registration/views.py:115-124 | as intended, the new user ends with exactly one person, the hook's, and users stay one-to-one |
| Views.FirstUnknown | backend/registration/views.py:178-181 | the first entry naming a session that does not exist; none exactly when every entry is known |
| Views.FirstUnknownAt | backend/registration/views.py:178-181 | after a run of known entries, the next unknown entry is the first |
| Views.Submitted | backend/registration/views.py:172-185 | one registration per entry, in order, with the requestor, the exchange and the entry's priority; pk 0 gives no session |
| Views.Of | backend/registration/views.py:169 | only the requestor's registrations for the exchange |
| Views.Without | backend/registration/views.py:169 | the delete keeps exactly the rows that are not the requestor's for the exchange |
| Views.OfAppend | backend/registration/views.py:169 | selecting distributes over concatenation |
| Views.WithoutAppend | backend/registration/views.py:169 | deleting distributes over concatenation |
| Views.OfNone | backend/registration/views.py:169 | no owned row selects nothing |
| Views.OfAll | backend/registration/views.py:169 | all rows owned: all are selected and all deleted |
| Views.OfOthers | backend/registration/views.py:169 | the delete leaves other requestors' and other exchanges' registrations alone |
| Views.WithoutOfFree | backend/registration/views.py:169 | deleting from rows with no owned row changes nothing |
| Views.Replaced | backend/registration/views.py:168-185 | re-registering leaves the requestor exactly the submitted registrations and everyone else's registrations unchanged |
| Views.RegistrationDesk.constructor | backend/registration/views.py:105-190 | the desk starts from the given tables |
| Views.RegistrationDesk.Register | backend/registration/views.py:105-190 | updates or creates the person; without an active exchange, fails and changes no registration; otherwise replaces the person's registrations by the submitted ones, up to the first unknown session, which fails; an unknown address reuses the person the User hook created (corrected program, see ## Findings) |
| Models.KeptPartsMeans | backend/registration/models.py:49-54 | only non-blank parts are kept, and none is kept exactly when all are blank |
| Models.JoinKept | backend/registration/models.py:49-55 | a join of kept parts is not blank |
| Models.FullNameParts | backend/registration/models.py:47-57 | the username exactly when every part is blank; otherwise the non-blank parts joined by single spaces |
| Models.AffiliationParts | backend/registration/models.py:71-75 | the department strings, then the other affiliation when non-empty, joined by ", " |
| Models.ToLowerSlugIsSlug | backend/registration/models.py:314-320 | a slug has no upper-case letter, no separator run and no "_" at either end; a non-string gives "" |
| Models.ToLowerSlugFixes | backend/registration/models.py:314-320 | a normalised slug is left as it is |
| Models.ToLowerSlugIdempotent | backend/registration/models.py:314-320 | normalising twice is normalising once |
| Models.ToLowerUsername | backend/registration/models.py:323-327 | each character lower-cased, and a non-string gives "" |
| Models.ToLowerUsernameIdempotent | backend/registration/models.py:323-327 | lower-casing twice is lower-casing once |
| Models.GetPreferDutchName | backend/registration/models.py:268-277 | the first Dutch description with a subtitle or a title gives "title subtitle" or the title; without one, the fallback |
| Models.Upsert | backend/registration/models.py:330-338 | the saved exchange is stored, and every other row was stored before |
| Models.UpsertKeeps | backend/registration/models.py:215-225 | a save without a clash keeps pk, begin and end unique |
| Models.UpsertOnlyActive | backend/registration/models.py:330-338 | after the hook and a clean save of an active exchange, it is the only active one |
| Models.UpsertAtMostOne | backend/registration/models.py:330-338 | saving an inactive exchange keeps at most one active |
| Models.ExchangeTable.constructor | backend/registration/models.py:215-225 | an empty table with unique columns |
| Models.ExchangeTable.ActiveExchange | backend/registration/models.py:330-338 | the hook deactivates every stored exchange with another begin when the saved one is active, and changes nothing else |
| Models.ExchangeTable.Save | backend/registration/models.py:215-225 | fails exactly on a unique clash; after saving an active exchange nothing with another begin is active; at most one active exchange is preserved |
| Models.MergedAffiliationOneEmpty | backend/registration/models.py:135-137 | when one side has no other affiliation, the set order does not matter |
| Models.MergedDepartments | backend/registration/models.py:134 | the intended merge keeps the departments of both records and nothing else |
| Models.MergedDepartmentsLost | backend/registration/models.py:134 | a department only the newer record has is lost as written and kept as intended |
| Models.MergeRules | backend/registration/models.py:122-140 | the merged record keeps target's pk, username, url and language; it takes self's name parts and the earlier date_joined; it takes the later last_login when both are set and target's otherwise; its departments are the union (corrected program, see ## Findings) |
| Models.MergedFullName | backend/registration/models.py:122-125 | when the newer record has a non-blank name part, the merged record shows the newer record's full name |
| Models.PickMainEmail | backend/registration/models.py:103-106 | some @uu.nl address is chosen when one was collected; otherwise the main email stays |
| Models.MergedMailsMeaning | backend/registration/models.py:89-120 | as intended, every collected address except the main one belongs to target or keeps its holder; nothing belongs to self; other persons' addresses are untouched |
| Models.AddTargetMails | backend/registration/models.py:112-120 | storing target's addresses fails exactly when an address other than the main one is held by someone else |
| Models.MoveMailsAsWrittenClash | backend/registration/models.py:96-101 | as written, an address only self had is never repointed, so re-creating it for target clashes |
| Models.MoveMailsRepointedClash | backend/registration/models.py:96-120 | with the addresses handed over, the clash happens only when a third person holds an address |
| Models.Relinked | backend/registration/models.py:142 | as many registrations as before |
| Models.RelinkedOwners | backend/registration/models.py:142 | no registration is left to self; target holds exactly self's and its own; nothing else changes |
| Models.MovedLinks | backend/registration/models.py:144-151 | every contact, assignee and organizer link of self goes to target; other members are untouched |
| Models.Directory.SaveMail | backend/registration/models.py:168-174 | an address equal to the owner's main email is not stored; a new address already stored clashes; the guard keeps "no alias of a main address" |
| Models.Directory.SortOutSelfMails | backend/registration/models.py:96-101 | collects self's addresses; new ones go to target and the others are deleted (corrected program, see ## Findings) |
| Models.Directory.MoveTo | backend/registration/models.py:77-156 | merges into the smaller pk; a failure leaves every table unchanged and happens only when a third person holds a collected address; on success the record, addresses, registrations and links are as the merge rules say (corrected program, see ## Findings) |
| RegistrationService.PreferDutchLastDutch | frontend/src/app/services/registration.service.ts:46-54 | the last Dutch description decides the title |
| RegistrationService.PreferDutchNoDutch | frontend/src/app/services/registration.service.ts:46-54 | without a Dutch description the first non-empty title wins; the title is empty only when all are |
| RegistrationService.SessionTitle | frontend/src/app/services/registration.service.ts:46-54 | the loop computes the Dutch-preferred title |
| RegistrationService.DepartmentTitle | frontend/src/app/services/registration.service.ts:56-64 | the loop computes the Dutch-preferred department name |
| RegistrationService.Departments | frontend/src/app/services/registration.service.ts:66-72 | every department, in order, with its title added |
| RegistrationService.LettersOnly | frontend/src/app/services/registration.service.ts:32 | only letters remain, in order; a letters-only title is unchanged |
| RegistrationService.LettersOnlyIdempotent | frontend/src/app/services/registration.service.ts:32 | removing non-letters twice is removing them once |
| RegistrationService.OfferedSessions | frontend/src/app/services/registration.service.ts:28-43 | the offered sessions are a permutation of the fetched ones, sorted by sort title, each with its title and sort title |
| RegistrationService.Clamp | frontend/src/app/services/registration.service.ts:6-7 | the result lies in [1, 4]; values inside are kept, values outside go to the nearer bound |
| RegistrationService.KeysAscending | frontend/src/app/services/registration.service.ts:76 | Object.entries on integer keys: every key once, ascending |
| RegistrationService.FindSession | frontend/src/app/services/registration.service.ts:78 | finds a session with the pk exactly when one exists |
| RegistrationService.FindPriority | frontend/src/app/services/registration.service.ts:79 | finds a priority exactly when some item has the pk |
| RegistrationService.ItemFor | frontend/src/app/services/registration.service.ts:76-81 | an item exists exactly for a flagged pk with an offered session; it has that session and the kept or new priority |
| RegistrationService.PrioritiesItems | frontend/src/app/services/registration.service.ts:79 | every item has a flagged pk and the offered session with that pk, and its priority is the kept or new priority, clamped into [1, 4] |
| RegistrationService.PrioritiesPks | frontend/src/app/services/registration.service.ts:75-81 | the list holds exactly the pks flagged true that have a session |
| RegistrationService.PrioritiesAscending | frontend/src/app/services/registration.service.ts:76 | the list is in ascending pk order |
| RegistrationService.Wrapped | frontend/src/app/services/registration.service.ts:88-97 | for a maximum of at least 1 the result lies in [1, maximum], and values already inside are kept |
| RegistrationService.ClickCycle | frontend/src/app/registration/registration.component.ts:32-34 | clicking lowers the priority by one and 1 wraps to the maximum; max clicks return to the start |
| RegistrationService.ClicksDown | frontend/src/app/registration/registration.component.ts:32-34 | n clicks from above n lower the priority by n |
| RegistrationService.ClicksAdd | frontend/src/app/registration/registration.component.ts:32-34 | a + b clicks are a clicks followed by b clicks |
| RegistrationService.Service.constructor | frontend/src/app/services/registration.service.ts:19-21 | empty flags, list and sessions |
| RegistrationService.Service.LoadSessions | frontend/src/app/services/registration.service.ts:27-44 | the sessions become the fetched ones, titled and sorted |
| RegistrationService.Service.Update | frontend/src/app/services/registration.service.ts:74-85 | sets one flag and rebuilds the list from all flags |
| RegistrationService.Service.UpdatePriority | frontend/src/app/services/registration.service.ts:87-103 | same length and sessions; only the items with the pk change, to the wrapped priority |
| ExchangeSessionView.ParticipantRange | frontend/src/app/exchange-session/exchange-session.component.ts:84-90 | when min differs from max and max is at most 90, the text splits into min, the separator and max |
| ExchangeSessionView.ParticipantRangeDetermines | frontend/src/app/exchange-session/exchange-session.component.ts:84-90 | the shown range determines the bounds |
| ExchangeSessionView.ImportedSessionUnlimited | frontend/src/app/exchange-session/exchange-session.component.ts:84-96 | a session created with the import defaults shows unlimited places and repeats |
| ExchangeSessionView.SessionCountShown | frontend/src/app/exchange-session/exchange-session.component.ts:92-96 | the unlimited text exactly above 90; otherwise the digits |
| ExchangeSessionView.IntToStringNoSpace | frontend/src/app/exchange-session/exchange-session.component.ts:85 | a rendered number contains no space |
| ExchangeSessionView.ShownLastInLanguage | frontend/src/app/exchange-session/exchange-session.component.ts:102-111 | the last description in the language is shown whole |
| ExchangeSessionView.ShownNoneInLanguage | frontend/src/app/exchange-session/exchange-session.component.ts:102-111 | with a title and no description in the language, the fields stay as they were |
| ExchangeSessionView.DutchTitleAgrees | frontend/src/app/exchange-session/exchange-session.component.ts:98-111 | in Dutch, the shown title is the one the session list sorts by |
| ExchangeSessionView.DutchAfterEnglish | frontend/src/app/exchange-session/exchange-session.component.ts:115 | "nl" sorts after "en" |
| ExchangeSessionView.CountMultiplicity | frontend/src/app/exchange-session/exchange-session.component.ts:112-115 | a language's count is its multiplicity |
| ExchangeSessionView.SortedEnglishFirst | frontend/src/app/exchange-session/exchange-session.component.ts:115 | after sorting, no Dutch language comes directly before an English one |
| ExchangeSessionView.EnglishThenDutch | frontend/src/app/exchange-session/exchange-session.component.ts:115 | the sorted languages are all the English ones, then all the Dutch ones |
| ExchangeSessionView.DutchFirstNoEnglish | frontend/src/app/exchange-session/exchange-session.component.ts:115 | once a Dutch language comes first, no English one follows |
| ExchangeSessionView.NamesOfRuns | frontend/src/app/exchange-session/exchange-session.component.ts:115 | naming the runs gives the English text per English entry, then the Dutch text per Dutch entry |
| ExchangeSessionView.LanguagesListed | frontend/src/app/exchange-session/exchange-session.component.ts:100-115 | the languages line is the English text once per English description, then the Dutch text once per Dutch one, joined by " and " in the UI language |
| ExchangeSessionView.ContactsOrdered | frontend/src/app/exchange-session/exchange-session.component.ts:116-119 | one contact per organizer, with name and url, sorted by name |
| ExchangeSessionView.LanguagesOf | frontend/src/app/exchange-session/exchange-session.component.ts:112 | one language per description |
| ExchangeSessionView.Component.constructor | frontend/src/app/exchange-session/exchange-session.component.ts:31-46 | empty fields and the Dutch default texts |
| ExchangeSessionView.Component.ClickInterested | frontend/src/app/exchange-session/exchange-session.component.ts:71-73 | emits the negation of the interested flag |
| ExchangeSessionView.Component.UpdateContent | frontend/src/app/exchange-session/exchange-session.component.ts:79-120 | with no session nothing changes; otherwise every field is as Showing specifies |
| ExchangeSessionView.Component.ShowCounts | frontend/src/app/exchange-session/exchange-session.component.ts:84-96 | sets the participant and session count texts |
| ExchangeSessionView.Component.ShowContent | frontend/src/app/exchange-session/exchange-session.component.ts:98-115 | sets the title, runs the description loop and sets the languages line |
| ExchangeSessionView.Component.ShowDescription | frontend/src/app/exchange-session/exchange-session.component.ts:102-113 | the description loop sets the six fields as Shown says and collects the languages in order |
| ExchangeSessionView.Component.ShowLanguages | frontend/src/app/exchange-session/exchange-session.component.ts:115 | sets the languages line |
| ExchangeSessionView.Component.ShowContacts | frontend/src/app/exchange-session/exchange-session.component.ts:116-119 | sets the contacts, sorted by name |
| Ordering.Compare | frontend/src/app/services/registration.service.ts:34-42 | the comparator answers 0, -1 or 1 exactly as the sort titles are equal, smaller or greater |
| Ordering.LessTotal | frontend/src/app/services/registration.service.ts:35-41 | two strings are equal or one is smaller, never both smaller |
| Ordering.LessTransitive | frontend/src/app/exchange-session/exchange-session.component.ts:119 | string order is transitive |
| Ordering.InsertPermutes | frontend/src/app/services/registration.service.ts:34 | inserting adds the element once |
| Ordering.SortBySorted | frontend/src/app/services/registration.service.ts:34-42 | the sort orders by key and is a permutation |
| Ordering.SortBySortedFixed | frontend/src/app/exchange-session/exchange-session.component.ts:119 | a sorted list is left as it is |
| Tally.CountMapCounts | backend/registration/management/commands/history.py:151-155 | a counting dict holds exactly the elements read, each with its number of occurrences |
| Tally.FirstsMeans | backend/registration/management/commands/history.py:157 | dict keys in insertion order: each value read once, nothing else |
| Tally.CountSumTotal | backend/registration/management/commands/history.py:157-161 | counts over a covering duplicate-free list add up to the length |
| Tally.WeightedCountSumTotal | backend/registration/management/commands/history.py:157-161 | values times counts over a covering duplicate-free list add up to the sum |
| Text.JoinSplit | backend/registration/management/commands/organizers_mail.py:80 | splitting a join by a separator absent from the parts gives the parts |
| Text.SplitJoin | backend/registration/views.py:225-233 | joining the pieces of a split gives the text back |
| Text.SortedDistinct | backend/registration/management/commands/history.py:163 | sorted distinct values: ascending, the same values |
| Text.NatToStringInjective | backend/registration/management/commands/organizers_mail.py:116 | decimal rendering is injective |
| Text.CollapseLower | backend/registration/models.py:317 | lower-casing commutes with collapsing non-letter runs |
| Text.StripFrom | backend/registration/models.py:135-137 | strip keeps only characters of its input |
| Text.ReplaceCharGone | backend/registration/management/commands/import.py:220 | replacing a character by a text without it removes every occurrence |
| Text.CollapseNoRuns | backend/registration/management/commands/import.py:221 | after collapsing, no two whitespace characters are adjacent, and every character is the replacement or one of the input's |

## Left out

- Database access: tables are in-memory values. The Registration record (`Domain.Registration`) carries the exchange, notes and reason fields that the commands and views filter on and fill, following their use rather than the model class as listed in models.py. A transaction that fails leaves them as they were (`Models.Directory.MoveTo`). The admin's rollback on error is not modelled separately.
- Console output (`print`) of every command, outbound mail (`send_data`, `send_confirmation`, `send_mail`) and the CSV and file writers (`write_file`, `write_data`, reading renames.csv and the enrollment files) are not modelled.
- Assign.Allocator.AssignRandom: `input()` is a finite sequence of answers. When it runs out the model stops and places nobody, while the command keeps asking for ever.
- The class-level sets and dicts of the `assign` command, shared between runs, are modelled as fresh state per run (`Assign.Allocator.constructor`). The idempotence proved by `Assign.RunIdempotent` is therefore per fresh allocator: a second `handle` in the same process would start from the first run's caches.
- Assign.Allocator.Handle: the command walks the random pool, a Python set, in an unspecified order. The model walks it in the order it was filled.
- History: the walk over sessions and their assignees is given as one sequence in walk order. A year label "begin-end" is represented by its begin year, whose numeric order is the labels' string order for four-digit years.
- History.DeptsRowOf: the Python sets of departments are modelled by counts of distinct values.
- `read_history_year` of the import command: only the choice-column loop is modelled. Creating users, persons and exchanges, parsing dates and the file handling are not.
- Import.UniqueUsername: the `taken` sequence stands in for the User table lookup.
- Lower and upper case are modelled on ASCII letters only. `str.isspace` and `\s` follow Python's full set of whitespace characters.
- The languages are limited to "en" and "nl".
- `get_name_by_lang`, the session titles (`titles`) and `Person.get_by_email` are parameters. `titles` is a total function to strings, so a session without descriptions, for which `ExchangeSession.titles` is None and `'; '.join` in format_data raises TypeError, is excluded. The department names passed to `get_affiliation` are inputs, because `Department.name` joins a set in unspecified order.
- Models.MergedAffiliation: `" ".join(set(...))` has an unspecified order. The model takes it as a parameter (`selfFirst`), and `Models.MergedAffiliationOneEmpty` shows when the order cannot matter.
- Views.RegistrationDesk.Register: one clock value per request stands in for `datetime.now`.
- The active exchange is an input of the `assign` and `organizers_mail` commands (`Assign.Setting`). When no exchange is active, `Exchange.objects.get(active=True)` raises DoesNotExist and both commands stop before changing anything; that case is not modelled.
- RegistrationService.Service.UpdatePriority: the items are values. The in-place update of `item.priority`, shared by the old and new lists, is not modelled as aliasing.
- RegistrationService: `BehaviorSubject` streams and the fetch from the backend are modelled as field updates. JavaScript string comparison by UTF-16 code units is modelled as comparison by character.
- Ordering.SortBy: the sort is stable, but no lemma states the stability.
- ExchangeSessionView.Component: the translation streams, `onLangChange` and `ngOnChanges` are left out. The translated texts are fields.
- The `participants_mail`, `mail_csv_to_emls` and `enrich` commands, the admin, URL routing and the other Angular components are not part of this model.

## Findings

| source | as written | input that shows it | evidently intended | confidence | as-written member | corrected member |
|---|---|---|---|---|---|---|
| backend/registration/management/commands/organizers_mail.py:78 | the conditional expression takes the whole concatenation, so an entry is empty unless the person is marked | one assigned person whose language is "nl", or marking off: the list is "" | every person is listed as " - Name <email>", with the English mark appended when marking is on and the person speaks English | high, not executed | OrganizersMail.AssignedAsWrittenDropsUnmarked | OrganizersMail.AssignedLineMarked |
| backend/registration/models.py:99 | `pm.person = target` is never saved, so an address only the newer record had stays with it until it is deleted together with that record; re-creating it for target then violates the unique address | merging two persons where self has an alternative address target lacks | the address moves to target | medium, not executed | Models.MoveMailsAsWrittenClash | Models.MoveMailsRepointedClash |
| backend/registration/models.py:134 | `target.departments.aadd(...)` returns a coroutine that is never awaited, so the departments are not merged | self linked to a department target is not linked to | the merged record keeps both records' departments | high, not executed | Models.MergedDepartmentsLost | Models.MergedDepartments |
| backend/registration/views.py:123-124 | for an address no person has, `user.save()` runs the User post_save hook, which already stores a Person for the user; the view then saves a second `Person()` for the same one-to-one user, which the database refuses | a register request from a new address: the request fails with an integrity error before any registration is written, leaving the user and the hook's bare person behind | reuse the hook's person (as the import command does) and write the form's fields to it | medium, not executed | Views.NewAddressAsWrittenFails | Views.NewAddressOnePerson |
