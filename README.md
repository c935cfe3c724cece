# Tournament store: status promotion, joining and listings

A Dafny model of the logic of a small tournament-registration web app. Users
pay an entry fee from a stored wallet balance to join scheduled game
tournaments, and each tournament moves from upcoming to live to completed.
The app keeps two Firestore collections, `tournaments` and `users`. Here they
are an in-memory store, `Records.Store`, and every Firestore read or write is
a read or an assignment on that store.

The model covers four parts of the code:

- **Status promotion** (`StatusService`, from `TournamentStatusService.checkAndUpdateTournamentStatuses`).
  - An upcoming tournament with a date and an `HH:MM` time is due once the current time reaches that day's start plus the hours and minutes.
  - Every due tournament is set to live.
  - The service reports how many tournaments it selected.
- **Joining** (`TournamentList.HandleJoinTournament`, from `handleJoinTournament`).
  - The username checks, the balance check and the capacity check run in a fixed order against the page's copies of the data.
  - The user document is written next: the new balance and the tournament id.
  - The tournament document is written last: the new participant.
- **The tournament list** (`TournamentList`).
  - Each tournament carries a `hasJoined` flag.
  - The list is stably sorted upcoming, then live, then completed.
  - The model states when the join buttons are enabled.
- **"My tournaments"** (`MyTournaments`).
  - The page shows the tournaments the user takes part in, sorted newest first.
  - The status badge and the card footer are in `StatusDisplay`.

`Text` models the JavaScript built-ins the code depends on: `trim`, `split(':')`
and `Number()` on a string. `Records` holds the document shapes, Firestore's
`arrayUnion`, and the store.

Time is integer milliseconds in the device's local frame. A tournament's start
is `DayStart(date) + (hours * 60 + minutes) * 60000`. `setHours` keeps the day
and carries hours and minutes past their range over, which plain addition
matches.

`HandleJoinTournament` follows the code rather than the intended design of a
join transaction:

- It checks the page's `walletBalance` and the page's copy of the tournament, not the stored documents.
- It writes `walletBalance - entryFee` over the stored balance; it does not decrement the stored value.
- It does not reject a user who already joined, and it does not reject a tournament that is no longer upcoming. Only the disabled buttons prevent those joins. `HandlerAllowsRepeatedJoin` shows a second join adding a second record with the same user id. `ValidateJoinStrict` is a separate, strengthened variant with both checks.
- The two writes are not atomic. If the user document is written and the tournament document is then missing, the outcome is `WriteFailed(true)` and the user stays debited.

The status service also differs from that design:

- It writes `status: 'live'` without checking that the stored status is still upcoming.
- It reports the number of tournaments it selected. In this sequential model that number equals the number that changed (`UpdatedCountIsPromoted`).

## Model

| member | source | states |
|---|---|---|
| Text.TrimEmptyIff | src/components/user/TournamentList.js:85-88 | `username.trim()` is empty exactly when every character is ECMAScript white space, so "Username is required" is reported exactly for all-blank input |
| Text.TrimSpec | src/components/user/TournamentList.js:91 | the trimmed name is the input with a run of white space cut from each end, and has no white space left at either end |
| Text.TrimIdempotent | src/components/user/TournamentList.js:91 | trimming an already trimmed name changes nothing |
| Text.SplitJoinsBack | src/services/TournamentStatusService.js:36 | the pieces of `split(':')` hold no ':' and joined with ':' give back the original string |
| Text.SplitJoin | src/services/TournamentStatusService.js:36 | joining colon-free pieces with ':' and splitting again gives back the same pieces |
| Text.SplitNoSeparator | src/services/TournamentStatusService.js:36 | a string without ':' splits into itself alone, so there is no minutes field |
| Text.NumberOfTwoDigits | src/services/TournamentStatusService.js:36 | `Number` of a two-digit string is the number it was written from |
| Records.ArrayUnion | src/components/user/TournamentList.js:122 | `arrayUnion(x)` holds `x`, keeps every earlier element in place, adds at most one element and nothing but `x`, and leaves the array unchanged when `x` is already in it |
| Records.ArrayUnionIdempotent | src/components/user/TournamentList.js:122 | a second `arrayUnion` of the same value changes nothing |
| Records.CollectionIds | src/services/TournamentStatusService.js:16-21 | in a well-formed store the snapshot has one document per stored id: its ids are distinct and are exactly the stored ids |
| Records.CollectionMembers | src/services/TournamentStatusService.js:16-21 | in a well-formed store a document is in the snapshot exactly when it is stored under its own id |
| StatusService.DayStart | src/services/TournamentStatusService.js:35-38 | the day start is the whole-day boundary at or before the date, less than a day earlier |
| StatusService.DueForLive | src/services/TournamentStatusService.js:27-42 | a due tournament is upcoming and has both a date and a non-empty time |
| StatusService.ToUpdate | src/services/TournamentStatusService.js:27-42 | the selection holds exactly the snapshot's tournaments that are due, and no more of them than the snapshot |
| StatusService.DueExactlyAtStart | src/services/TournamentStatusService.js:32-41 | an upcoming tournament with a date and an `HH:MM` time is due exactly when now is at or after its day start plus `hours * 60 + minutes` minutes |
| StatusService.TimeWithoutColonNeverDue | src/services/TournamentStatusService.js:36-41 | a time with no ':' gives no minutes, and such a tournament is never promoted |
| StatusService.ParseFormattedTime | src/services/TournamentStatusService.js:36 | a time written as two digits, ':' and two digits is read back as those hours and minutes |
| StatusService.DueStaysDue | src/services/TournamentStatusService.js:41 | once due, a tournament is due at every later time |
| StatusService.Promote | src/services/TournamentStatusService.js:45-48 | a pass keeps the same document ids |
| StatusService.PromoteChangesOnlyDue | src/services/TournamentStatusService.js:29-48 | a tournament that is not upcoming is unchanged; a due one changes only its status, to live; every other one is unchanged |
| StatusService.PromoteMonotonic | src/services/TournamentStatusService.js:29-47 | no status moves backwards in upcoming, live, completed, and live and completed stay as they are |
| StatusService.PromoteIdempotent | src/services/TournamentStatusService.js:29-47 | a second pass with the same time changes nothing |
| StatusService.NothingDueAfterPromote | src/services/TournamentStatusService.js:27-55 | after a pass, a second call with the same time selects nothing, so it reports `updatedCount` 0 |
| StatusService.ToUpdateIds | src/services/TournamentStatusService.js:27-48 | the ids the filter selects are stored ids, and a stored id is selected exactly when its document is due |
| StatusService.UpdatedCountIsPromoted | src/services/TournamentStatusService.js:52-55 | the number selected equals the number of tournaments that went from upcoming to live |
| StatusService.ToUpdateDistinct | src/services/TournamentStatusService.js:27-42 | filtering a snapshot with distinct ids keeps the ids distinct |
| StatusService.CheckAndUpdateTournamentStatuses | src/services/TournamentStatusService.js:13-63 | a failed read returns `Failed` and writes nothing; otherwise the collection becomes the promoted collection, users are untouched, and `updatedCount` is both the number selected and the number promoted |
| StatusService.SetStatusesLive | src/services/TournamentStatusService.js:45-50 | writing live to each selected id in turn leaves exactly those ids live and everything else unchanged |
| StatusDisplay.StatusBadgeVariant | src/components/user/MyTournaments.js:58-65 | the badge is green exactly for live, grey exactly for completed, and blue for upcoming and any other status |
| StatusDisplay.FooterText | src/components/user/MyTournaments.js:143 | the footer says "Registration open" exactly for upcoming, "Tournament in progress" exactly for live, and "Tournament ended" for everything else |
| StatusDisplay.FooterClass | src/components/user/TournamentList.js:250 | the footer is green exactly while live, grey exactly once completed, and unstyled otherwise |
| TournamentList.ValidateJoin | src/components/user/TournamentList.js:84-114 | the checks pass exactly when the trimmed name is non-empty, the sanitized name has 3 to 20 characters from `[a-zA-Z0-9_]`, the balance covers the fee and the tournament is not full; on success the stored name is the sanitized trimmed input |
| TournamentList.ValidationOrder | src/components/user/TournamentList.js:85-114 | each error is reported exactly when every earlier check passed and its own check failed |
| TournamentList.ValidNameIsTrimmed | src/components/user/TournamentList.js:91-102 | a name that matches the pattern has nothing for `trim` to remove |
| TournamentList.NewBalanceNonNegative | src/components/user/TournamentList.js:105-118 | when the checks pass, `walletBalance - entryFee` is not negative |
| TournamentList.DebitSpec | src/components/user/TournamentList.js:117-123 | after the user write the balance is the new balance, the tournament id is in the joined list, earlier ids stay in place, and repeating the write changes nothing |
| TournamentList.AddParticipantSpec | src/components/user/TournamentList.js:126-134 | after the tournament write the joining user is a participant, earlier participants stay in place, a new record goes at the end, and no other field changes |
| TournamentList.JoinKeepsCapacity | src/components/user/TournamentList.js:111-134 | a join that passed the capacity check leaves at most `maxParticipants` participants |
| TournamentList.HandleJoinTournament | src/components/user/TournamentList.js:80-143 | with no user or no tournament nothing happens; a failed check changes nothing; a missing user document fails before any write; a missing tournament document fails after the debit; otherwise both writes happen and the user is a participant with a non-negative balance |
| TournamentList.ValidateJoinStrict | src/components/user/TournamentList.js:218-232 | the strengthened checks pass exactly when the handler's checks pass, the user is not yet a participant, and the tournament is upcoming |
| TournamentList.StrictJoinKeepsUserIdsUnique | src/components/user/TournamentList.js:126-134 | a join that passes the strengthened checks keeps participant user ids unique |
| TournamentList.HandlerAllowsRepeatedJoin | src/components/user/TournamentList.js:80-134 | the handler lets an existing participant join again and adds a second record with the same user id |
| TournamentList.ListingAgreesWithMyTournaments | src/components/user/TournamentList.js:39-46 | for a signed-in user a listed tournament is flagged as joined exactly when the "My tournaments" filter (MyTournaments.js:39-41) keeps it; for a signed-out visitor nothing is flagged |
| TournamentList.JoinShowsAsJoined | src/components/user/TournamentList.js:43-45 | after a join the listing shows that tournament as joined for that user |
| TournamentList.WithRankRanks | src/components/user/TournamentList.js:49-52 | a status group holds tournaments of that status only |
| TournamentList.WithRankCount | src/components/user/TournamentList.js:49-52 | a tournament occurs in its own status group as often as in the list, and in no other group |
| TournamentList.ByStatusSorted | src/components/user/TournamentList.js:49-52 | in the sorted list every upcoming comes before every live, and every live before every completed |
| TournamentList.ByStatusPermutation | src/components/user/TournamentList.js:49-52 | the sorted list is a permutation of the listing |
| TournamentList.ByStatusStable | src/components/user/TournamentList.js:49-52 | tournaments with the same status keep their snapshot order |
| TournamentList.SortByStatus | src/components/user/TournamentList.js:49-52 | sorting the array in place leaves it holding the stable status order of its old contents |
| TournamentList.FetchTournaments | src/components/user/TournamentList.js:30-60 | the status service runs first, and the page then gets the listing of the updated collection in status order, or nothing when the read fails |
| TournamentList.JoinButtonFor | src/components/user/TournamentList.js:218-238 | "Join Tournament" is enabled exactly for a signed-in user who has not joined, on an upcoming tournament that is not full |
| TournamentList.EnabledButtonsGiveStrictJoin | src/components/user/TournamentList.js:218-238 | an enabled join button, an enabled confirm button (line 338) and a valid name pass both the handler's checks and the strengthened ones |
| MyTournaments.JoinedByCount | src/components/user/MyTournaments.js:34-41 | the filter keeps each tournament the user takes part in as often as it is stored, and drops every other one |
| MyTournaments.JoinedByMembers | src/components/user/MyTournaments.js:34-41 | a tournament is kept exactly when it is stored and the user is among its participants |
| MyTournaments.InsertPermutation | src/components/user/MyTournaments.js:44-48 | inserting one tournament adds exactly that tournament |
| MyTournaments.NewestFirstCons | src/components/user/MyTournaments.js:44-48 | a list with a first tournament is newest first exactly when nothing after the first is newer and the rest is newest first |
| MyTournaments.InsertNewestFirst | src/components/user/MyTournaments.js:44-48 | inserting into a newest-first list keeps it newest first |
| MyTournaments.SortNewestFirstSpec | src/components/user/MyTournaments.js:44-48 | the sorted list never increases in date, a missing date counting as now, and is a permutation of its input |
| MyTournaments.SortNewestFirstStable | src/components/user/MyTournaments.js:44-48 | tournaments with the same date keep their snapshot order |
| MyTournaments.MyTournamentsSpec | src/components/user/MyTournaments.js:34-48 | every listed tournament has the user as a participant, every stored one that has the user is listed as often as it is stored, and the list is newest first |
| MyTournaments.FetchMyTournaments | src/components/user/MyTournaments.js:23-56 | the status service runs first, and the page then gets the user's tournaments of the updated collection, newest first, or nothing when the read fails |

## Left out

- React rendering, hooks, modals, navigation, loading flags and the error messages shown on the page are not modelled. The two pages in `src/components/common/` are not part of this model.
- Firestore is an in-memory store. `getDocs` failures and `updateDoc` on a missing document are modelled as outcomes; network latency and offline caching are not.
- Concurrency is not modelled; the model is sequential. Because of this it does not show the read-then-write race: two pages holding the same stale snapshot can both pass the capacity check and overfill a tournament, or overwrite each other's balance.
- `Promise.all` failing part-way is not modelled: either the read fails and nothing is written, or every selected write happens.
- The clock (`new Date()`) is the parameter `now`. The sort comparator in `MyTournaments.js` calls `new Date()` for each missing date, up to twice per comparison, so those stand-in dates can differ slightly between calls; the model uses one `now` for the whole sort.
- Time zones and daylight-saving shifts are not modelled. A day is 86 400 000 ms from a multiple of that value.
- `Number()` is modelled only for white space around decimal digits, and the empty string is 0. Anything else is `NaN`, which never promotes. Signs, decimal points, exponents, hex literals and `Infinity` are not modelled.
- `DOMPurify.sanitize` is a function parameter; the library is not part of this model.
- String lengths count characters, not UTF-16 code units.
- Participant `email` and `joinedAt` (from the auth context and the clock) are opaque parameters.
- TournamentList.StatusRank: a status other than upcoming, live or completed ranks last. In the source the comparator returns `NaN` for such a status, which gives no defined order.
- TournamentList.JoinKeepsCapacity: the capacity bound also requires a participants array or `maxParticipants` of at least 1. A tournament with no participants array is never full (`undefined >= n` is false), so with `maxParticipants` 0 it accepts one join.
- Document field types are assumed well formed: `tournamentDate` is a Timestamp or missing, and `tournamentTime` is a string or missing. The service calls `toDate()` and `split(':')` without guards, so a truthy date that is not a Timestamp, or a time that is not a string, throws inside the filter; the catch then reports failure for the whole pass and nothing is written. `date: Option<int>` and `time: string` cannot express that error path.
- A document's own id is assumed to be its `id`. The pages build each record as `{ id: doc.id, ...doc.data() }`, so a stored `id` field would override the document id; the store's well-formedness (`docs[id].id == id`) assumes no document holds a different `id` field.
- Tournament amounts are assumed present and whole: `entryFee` and `maxParticipants` are `int` fields, and `walletBalance` is an `int`. In the source they are JavaScript numbers and may be missing or fractional. A tournament with no `entryFee` passes the balance check (`walletBalance < undefined` is false, TournamentList.js:105), and the handler then writes `walletBalance: NaN` (TournamentList.js:118-121). A tournament with no `maxParticipants` is never full (`length >= undefined` is false, TournamentList.js:111 and :228). Fractional amounts are subject to floating-point rounding, which the model does not have.
- TournamentList.NewBalanceNonNegative and TournamentList.HandleJoinTournament: the promise that the new balance is non-negative holds only under the assumption above; for a tournament document without `entryFee` the source stores `NaN`.
- TournamentList.HandleJoinTournament: after a successful join the source calls `fetchTournaments()` without awaiting it (TournamentList.js:138), which runs the status pass again and reloads the list. That refresh is the separate `TournamentList.FetchTournaments` and is not part of the handler's contract; the local `setWalletBalance(newBalance)` and closing of the modal (TournamentList.js:137, :139) are page state and are not modelled.
- Other fields of the documents (game name, prize pool, match details) are not modelled, since the core logic does not read them.
- `fetchUserWalletBalance` (TournamentList.js:62-71), which sets the page's balance to `userData.walletBalance || 0`, is not modelled; the page's balance is the parameter `walletBalance` of the join handler.
