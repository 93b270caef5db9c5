# Chess tournament registry, modelled in Dafny

This project models the core of a small console registry for chess tournaments. The operator keeps player records and creates tournaments from them.

The model covers five parts of the system:
- the two input validators;
- the equality-conjunction record query of the document-store gateway;
- the player and tournament entities;
- the player menu, which creates a player after a duplicate check and a confirmation;
- the tournament menu, which creates a tournament, builds its roster player by player, saves it and marks its players as taken.

The model has one module per source file, plus four shared modules:
- `Exceptions`: the error kinds, and the `Option` and `Result` datatypes.
- `Text`: the Python string behaviour the code relies on. This is ASCII `lower`, `upper` and `title`; substring `in`; string ordering; `str(n)`; and `int(s)`.
- `Dates`: the `strptime(..., '%d/%m/%Y')` check.
- `View`: the console.

The console is an object with three fields:
- `script`: the answers the operator will type, in order;
- `log`: the information and warning messages shown so far;
- `lastAnswer`: a ghost record of the answer read last, which the confirmation prompts are stated against.

Every prompt reads the next answer. Reading past the last answer is Python's `EOFError` from `input()`, so every controller operation returns a `Result`.

The document store is modelled the same way. A table is an object whose `docs` field is a sequence of documents. Each document has an integer identifier and a map from field names to values. `save` appends one document under the next identifier. The re-prompt loops (`while True: ask; validate; warn`) are methods with loops. Each one is specified by `FirstAccepted`, the position of the first answer that passes its test, and by `Settle`, that answer together with the answers left after it. Every earlier answer produces exactly one warning. `SettleEach` runs several such loops one after the other. The controller operations are stated against it: which answer became which field, which answer selected which action and which answer confirmed. `Selection` and `Enrolment` give, for any answers, what selecting one player and the whole player-adding loop come to.

A few behaviours are modelled as the code has them:
- `is_over` is an equality. A tournament is over exactly when its turn counter equals its number of turns, and it is not over again once the counter passes that value.
- `_create_tournament` ignores the result of `_add_players` (Controllers/tournament.py:275). A roster that is shorter than required, because the operator stopped adding players, is still saved if the operator confirms.
- The tournament duplicate check searches the tournament table with the player field names `first_name` and `last_name`. Tournament records have neither field, so the check never finds anything. `TournamentDuplicateCheckNeverFires` proves this, and `CreateTournament` states it.
- `check_multiple_choice` matches by substring but returns by position. For example, the empty answer is `in` every key, after which `int("")` raises a ValueError that no controller catches. The model keeps this error path.
- `_create_tournament` and `_create_player` use a module-global `db_manager`. They are read as the controller's own store.
- `general_controller` calls `warning(message=...)`. This is read as a warning.
- `Player(**record)` in `_select_a_player` cannot work. See "## Findings".

## Model

| member | source | states |
|---|---|---|
| Validators.CheckMultipleChoice | Utils/validators.py:5-10 | NotValidChoiceError exactly when no key contains the answer; any value returned is the value of some entry; the only errors are NotValidChoiceError, ValueError (from `int`) and IndexError |
| Validators.PyIndex | Utils/validators.py:8 | Python indexing of `choices[index]`: every index `int` may give in [-n, n) lands on a valid position, and a non-negative index is itself |
| Validators.CheckNotEmptyField | Utils/validators.py:13-17 | refuses exactly the empty string with EmptyFieldError, otherwise returns the input unchanged |
| Validators.BlankIsNotEmpty | Utils/validators.py:14-17 | no trimming: every answer made only of blanks is accepted unchanged |
| Validators.SelectsByKeyWhenNumbered | Utils/validators.py:6-8 | with keys "1".."n" in list order, typing the k-th key gives the k-th value |
| Validators.NumberedMenuSemantics | Utils/validators.py:5-10 | on a numbered menu of at most nine entries: "" gives ValueError, a key gives its entry's value, anything else NotValidChoiceError |
| Validators.NumberedMenuOffersOnlyItsValues | Utils/validators.py:5-10 | on such a menu an answer that passes the `in` test is a key and yields that key's value, or is "" and yields ValueError |
| Validators.SingleCharContains | Utils/validators.py:7 | a one-character key contains exactly itself and the empty string |
| Validators.SelectsByPositionNotByKey | Utils/validators.py:8 | the value is taken by position: with keys out of order, "1" yields the entry keyed "2" |
| Validators.ZeroSelectsLastOfTen | Utils/validators.py:7-8 | with ten numbered entries, "0" is in "10" and `choices[-1]` gives the tenth value |
| Text.ContainsIffOccurs | Utils/validators.py:7 | Python `in` on strings holds exactly when the needle occurs at some position |
| Text.EmptyIsInEverything | Utils/validators.py:7 | the empty string is `in` every key |
| Text.Contains | Utils/validators.py:7 | `needle in haystack`: the empty needle and the haystack itself are in it; a needle that is in it is no longer than it |
| Text.ParseInt | Utils/validators.py:8 | `int(s)`: fails on ""; a string of digits gives its decimal value; a success needs at least one digit |
| Text.NatToString | Controllers/tournament.py:112 | `str(n)`: at least one character, all digits; the single digit itself below ten |
| Text.ParseNatToString | Controllers/tournament.py:112 | `int(str(n)) == n` for the keys the menus build with `str(len(choices) + 1)` |
| Text.LexLeTotal | Controllers/tournament.py:59 | string ordering is total, as sorting needs |
| Text.Lower | Controllers/players.py:103 | `lower()` keeps the length, turns every upper-case letter into its lower-case partner and changes nothing else, so no upper-case letter is left |
| Text.LowerIsNo | Controllers/players.py:103 | `answer.lower() == "n"` holds for exactly "n" and "N" |
| Text.Upper | Models/player.py:24-26 | `upper()` keeps the length, turns every lower-case letter into its upper-case partner and changes nothing else, so no lower-case letter is left |
| Text.TitleAt | Models/player.py:24-26 | `title()` raises the first letter of each word and lowers the others |
| Text.Title | Models/player.py:26 | `title()` keeps the length and changes letters only, into letters |
| Text.TitleIdempotent | Models/player.py:24-26 | `title()` applied twice is `title()` applied once |
| TinyManager.Dict | DBManagers/tiny_manager.py:22 | `dict(values)` has exactly the queried field names as keys |
| TinyManager.TestFunc | DBManagers/tiny_manager.py:21-26 | the empty query matches every record; a matching record has every searched field |
| TinyManager.TestFuncIffLastPairsHold | DBManagers/tiny_manager.py:21-26 | a record matches iff, for every field, the last pair naming it holds for the record |
| TinyManager.MissingFieldNeverMatches | DBManagers/tiny_manager.py:24 | a record lacking a searched field never matches (`get` gives None) |
| TinyManager.PrependedPairsOnlyNarrow | DBManagers/tiny_manager.py:22-26 | pairs put in front of a query can only shrink what it matches |
| TinyManager.FreshPairsOnlyNarrow | DBManagers/tiny_manager.py:22-26 | pairs appended for new fields can only shrink what it matches |
| TinyManager.OverridingPairCanWiden | DBManagers/tiny_manager.py:22 | an appended pair for a field already searched replaces it, and can widen the match |
| TinyManager.LaterPairForSameFieldWins | DBManagers/tiny_manager.py:22 | of two pairs for one field, only the later one is checked |
| TinyManager.GetInstancesId | DBManagers/tiny_manager.py:37-39 | an identifier is returned exactly when a document with it matches |
| TinyManager.EmptyQueryMatchesAll | DBManagers/tiny_manager.py:37-39 | the empty query returns every identifier, in table order |
| TinyManager.InstancesIdInTableOrder | DBManagers/tiny_manager.py:37-39 | on a table with increasing identifiers the result is increasing, hence without duplicates |
| TinyManager.GetObject | Controllers/tournament.py:205 | `get_object`: None exactly when nothing matches; otherwise the first match, a stored matching document |
| TinyManager.IsObjectExist | Controllers/tournament.py:188 | `is_object_exist`: true exactly when some stored document matches |
| TinyManager.NextId | DBManagers/tiny_manager.py:11-12 | the new identifier is positive and, on a table with increasing identifiers, greater than every stored one |
| TinyManager.Save | DBManagers/tiny_manager.py:11-12 | exactly one document is appended under the next identifier; stored documents are unchanged |
| TinyManager.SetAttributeWhere | Controllers/tournament.py:251-256 | listed documents get the attribute set and keep every other field; unlisted documents are unchanged |
| TinyManager.UpdateAttributeMany | Controllers/tournament.py:251-256 | the table becomes SetAttributeWhere of the old table and keeps increasing identifiers |
| PlayerModel.GenderFromValue | Models/player.py:7-9 | `Gender(value)` succeeds exactly for "M" and "F" and gives back that value |
| PlayerModel.GenderValueRoundTrip | Models/player.py:7-9 | looking a gender up by its value gives it back |
| PlayerModel.NewPlayer | Models/player.py:31-40 | the four given fields unchanged; ranking 0, score 0, no opponents, not in a tournament |
| PlayerModel.FullName | Models/player.py:24-26 | `full_name`: the last name in upper case, so with no lower-case letter left, then a blank, then the first name in title case, which `title()` leaves as it is |
| PlayerModel.PlayerToString | Models/player.py:47-48 | `str(player)` is the player's full name |
| PlayerModel.PlayerData | Models/player.py:42-45 | `player_data` has exactly the eight attribute names as keys |
| PlayerModel.NewPlayerData | Models/player.py:31-40 | a new player dumps its four given fields and ranking 0, score 0, no opponents, not in a tournament |
| PlayerModel.StoredPlayerRecordRejectedByInit | Controllers/tournament.py:206 | every stored player record has keys `__init__` does not accept (the finding) |
| PlayerModel.PlayerFromRecord | Controllers/tournament.py:205-206 | rebuilding a player from a record fails only with TypeError |
| PlayerModel.PlayerRecordRoundTrip | Controllers/tournament.py:206 | rebuilding a player from its own dump gives the same player |
| PlayerModel.PlayerRecordIsDump | Models/player.py:42-45 | a record a player can be rebuilt from is exactly that player's dump |
| TournamentModel.TimeControlFromValue | Models/tournament.py:9-12 | `TimeControl(value)` succeeds exactly for "bullet", "blitz", "quick move" and gives back that value |
| TournamentModel.TimeControlValueRoundTrip | Models/tournament.py:9-12 | looking a time control up by its value gives it back |
| TournamentModel.Tournament.constructor | Models/tournament.py:18-36 | the six given fields unchanged; the configured number of turns, no turns, turn 1, no players |
| TournamentModel.Tournament.IsOver | Models/tournament.py:38-42 | `is_over` holds exactly when the attributes `current_turn` and `number_of_turns` are equal |
| TournamentModel.Tournament.Date | Models/tournament.py:44-48 | the start date alone exactly when both dates are equal; otherwise the start date, " - " and the end date |
| TournamentModel.Tournament.ToString | Models/tournament.py:56-57 | the title-cased name, then " (", the upper-cased place and "): ", then the date |
| TournamentModel.Tournament.Attributes | Models/tournament.py:50-54 | the attribute dictionary holds the ten attributes, and "is_over" once it has been written |
| TournamentModel.Tournament.TournamentData | Models/tournament.py:50-54 | writes "is_over" (the current `is_over`) into the attributes and returns all eleven entries; nothing else changes |
| TournamentModel.Tournament.NextTurn | Models/tournament.py:62-63 | the counter grows by exactly one, nothing else changes; a tournament on its last turn is no longer over |
| TournamentModel.NextTurns | Models/tournament.py:62-63 | k calls move the counter by k; a fresh tournament is then over exactly when 1 + k is the number of turns |
| Dates.FormattedDateIsValid | Controllers/tournament.py:47 | every calendar date of years 1 to 9999 written dd/mm/yyyy passes the date check |
| Dates.ValidDateShape | Controllers/tournament.py:47 | an accepted date has 8 to 10 characters, a day field of digits worth 1 to 31 and a month field of digits worth 1 to 12 |
| Dates.FormattedDateRoundTrip | Controllers/tournament.py:47 | a dd/mm/yyyy spelling passes the check exactly when its fields name a calendar date |
| Dates.JoinedFieldsAreOnlyValidDates | Controllers/tournament.py:47 | two-digit day and month fields and a four-digit year joined by '/' pass only when they name a calendar date |
| Dates.LeapYearRule | Controllers/tournament.py:47 | for every year 1 to 9999, 29/02 of that year passes exactly when the year is a Gregorian leap year |
| GeneralController.FirstAccepted | Controllers/general_controller.py:12-17 | the position of the first answer passing the test; no earlier answer passes |
| GeneralController.Settle | Controllers/general_controller.py:12-17 | None exactly when no answer passes the test; otherwise a passing answer and the answers left, the answer sitting just before them |
| GeneralController.SettleEach | Controllers/players.py:79-82 | a run of re-prompt loops settles on one answer per loop and leaves a suffix of the answers, shorter by at least that many |
| GeneralController.SettleEachStep | Controllers/players.py:79-82 | once the first loop settles, the rest of the run decides: its answers follow the first one |
| GeneralController.SettleEachStops | Controllers/players.py:79-82 | a run whose first loop runs out of answers settles on nothing |
| GeneralController.AskAndCheckField | Controllers/general_controller.py:12-17 | returns the first non-empty answer, after one warning per empty answer before it, and consumes exactly the answers up to it; EOFError when none is left |
| GeneralController.AskUntil | Controllers/general_controller.py:12-17 | returns the first answer its test lets through, after one warning per answer before it, and consumes exactly the answers up to it; EOFError when none is left |
| GeneralController.AskMultipleChoice | Controllers/tournament.py:60-66 | one warning per answer no key contains; the first other answer decides through `check_multiple_choice` and is the answer read last; exactly the answers up to it are consumed |
| GeneralController.AskValidDate | Controllers/tournament.py:44-50 | returns the first valid date, after one warning per refused answer before it, and consumes exactly the answers up to it; EOFError when none is left |
| GeneralController.Declines | Controllers/tournament.py:207-208 | consumes one answer, records it as the answer read last, and declines exactly on "n" or "N"; EOFError when none is left |
| PlayersController.MenusAreNumbered | Controllers/players.py:22-27 | the player menu and the gender menu are keyed "1".."n" in order |
| PlayersController.NameQueryMatches | Controllers/players.py:95-97 | the name search matches exactly the records with both names equal |
| PlayersController.ActionOf | Controllers/players.py:22-27 | the answer-to-action map of the player menu ("1" to "4"); its only failure is ValueError |
| PlayersController.GenderOf | Controllers/players.py:55-58 | the answer-to-gender map of the gender menu followed by `Gender(value)`; its only failure is ValueError |
| PlayersController.InfoPromptsSettle | Controllers/players.py:79-81 | when the first-name, last-name and gender loops settle one after the other, the run of the three settles on those three answers in that order |
| PlayersController.BirthPromptSettles | Controllers/players.py:82 | the birth-date prompt settles exactly as its date loop does |
| PlayersController.InfoOutcomeBuilds | Controllers/players.py:78-89 | whenever the three loops and then the date loop settle, and the gender answer selects a gender, the player is built from those four answers, in that order |
| PlayersController.InfoOutcomeShape | Controllers/players.py:78-89 | a player built from the answers has non-empty names, a valid date and the defaults, and took at least four answers; the only failures are EOFError and ValueError |
| PlayersController.AppendUnknownNameKeepsUnique | Controllers/players.py:98-107 | saving a record whose name search found nothing keeps stored names unique |
| PlayersController.AppendNewPlayerRecord | Controllers/players.py:106 | saving a new player's dump keeps the table a table of player records, with unique names |
| PlayersController.PlayerManager.constructor | Controllers/players.py:16-18 | the manager holds the given view and store |
| PlayersController.PlayerManager.CreateOrUpdatePlayer | Controllers/players.py:20-34 | the answer the menu loop settles on selects by ActionOf: "1" to "4" give CREATE, UPDATE, BACK, QUIT and "" ValueError; one warning per unknown key before it; the answers up to it consumed; any action returned is what ActionOf gives for the answer read last |
| PlayersController.PlayerManager.GetFirstName | Controllers/players.py:36-43 | exactly what the non-empty loop settles on: the first non-empty answer, with the answers after it left; one warning per empty answer before it; EOFError when none is left |
| PlayersController.PlayerManager.GetLastName | Controllers/players.py:45-52 | exactly what the non-empty loop settles on: the first non-empty answer, with the answers after it left; one warning per empty answer before it; EOFError when none is left |
| PlayersController.PlayerManager.GetGender | Controllers/players.py:54-65 | for the answer the menu loop settles on: "1" gives "M", "2" gives "F", "" ValueError, agreeing with GenderOf; one warning per unknown key before it |
| PlayersController.PlayerManager.BirthDate | Controllers/players.py:67-76 | exactly what the date loop settles on: the first valid date, with the answers after it left; one warning per refused answer before it |
| PlayersController.PlayerManager.GetInfoPlayer | Controllers/players.py:78-89 | the result and the answers left are InfoOutcome of the answers: first name, last name, gender and birth date from the four prompts in that order, ValueError before the date on an empty gender answer; non-empty names, a valid date, at least four answers read |
| PlayersController.PlayerManager.CreatePlayer | Controllers/players.py:91-107 | the candidate is the player InfoOutcome builds from the answers; a known name: warning, False, nothing saved; otherwise the next answer confirms: "n"/"N" gives False and saves nothing, any other answer appends exactly the new player's dump and gives True; names stay unique |
| PlayersController.PlayerManager.SaveUnlessKnown | Controllers/players.py:95-107 | a known name: warning, False, no answer read; otherwise the next answer confirms: "n"/"N" saves nothing, any other answer appends exactly the player's dump; EOFError when no answer is left |
| PlayersController.PlayerManager.CreateCase | Controllers/players.py:115-120 | creates a player, then shows "saved" exactly when a record was added and "not saved" otherwise; the table only grows and names stay unique |
| PlayersController.PlayerManager.HandleAction | Controllers/players.py:114-129 | UPDATE, BACK, QUIT change neither store nor view, nor the answer read last; CREATE ends with "saved" exactly when a record was added, "not saved" otherwise |
| PlayersController.PlayerManager.Run | Controllers/players.py:109-129 | ends on BACK or QUIT, exactly as ActionOf maps the answer read last ("3" or "4"); the table only grows, keeps player records only and keeps names unique |
| TournamentController.FreeCount | Controllers/tournament.py:81-84 | the number of free players is at most the number of players |
| TournamentController.FreeCountAfterMarking | Controllers/tournament.py:251-256 | marking the roster lowers the free count by exactly the number of free listed players |
| TournamentController.FreeAfterMarking | Controllers/tournament.py:251-256 | after marking, a player is free exactly when it was free and is not listed |
| TournamentController.FreeCountDropsForFreeRosterMember | Controllers/tournament.py:251-256 | a roster holding a free player strictly lowers the free count |
| TournamentController.MarkingKeepsPlayerTable | Controllers/tournament.py:251-256 | marking keeps every record a player record |
| TournamentController.MarkingKeepsNamesUnique | Controllers/tournament.py:251-256 | marking keeps stored names unique |
| TournamentController.AppendTournamentRecord | Controllers/tournament.py:250 | appending a tournament record keeps the tournament table free of player names |
| TournamentController.TournamentDuplicateCheckNeverFires | Controllers/tournament.py:268-271 | the duplicate search on tournament records never finds anything |
| TournamentController.InsertByKey | Controllers/tournament.py:59 | inserting into a list sorted by key keeps it sorted and adds exactly that entry |
| TournamentController.SortByKey | Controllers/tournament.py:59 | `choices.sort(key=...)`: sorted by key and a permutation of the input |
| TournamentController.SortedIsUnchanged | Controllers/tournament.py:59 | a list already in key order is left unchanged |
| TournamentController.NumberedIsSorted | Controllers/tournament.py:59 | keys "1".."9" in list order are in key order |
| TournamentController.NumberedMenuIsNotReordered | Controllers/tournament.py:59 | so sorting leaves every numbered menu of up to nine entries unchanged |
| TournamentController.TimeControlNumbered | Controllers/tournament.py:126-130 | the time-control menu is keyed "1".."3" in order |
| TournamentController.TimeControlMenu | Controllers/tournament.py:124-131 | sorting leaves the time-control menu unchanged |
| TournamentController.TimeControlOf | Controllers/tournament.py:126-130 | the answer-to-time-control map ("1" to "3"); its only failure is ValueError |
| TournamentController.TimeControlAnswer | Controllers/tournament.py:124-131 | a deciding answer selects as TimeControlOf says: a time-control value, or ValueError exactly for "" |
| TournamentController.TournamentAnswersAfterFive | Controllers/tournament.py:166-171 | once name, place, start date, end date and description have settled, the time-control loop decides the six answers, in that order |
| TournamentController.WithNextChoice | Controllers/tournament.py:112 | appends one entry with the given value and keeps the menu numbered |
| TournamentController.OfferedShape | Controllers/tournament.py:111-115 | the offered entries are numbered, one per condition that holds; CREATE comes first and only when its condition holds, OPEN last and only when its condition holds |
| TournamentController.ActionMenuShape | Controllers/tournament.py:108-121 | the menu is numbered: CREATE if offered, then OPEN if offered, then BACK and QUIT, and no other value |
| TournamentController.ActionMenuSorted | Controllers/tournament.py:59 | sorting leaves the action menu unchanged |
| TournamentController.MenuActions | Controllers/tournament.py:111-121 | two to four actions, ending with BACK and QUIT |
| TournamentController.ActionFor | Controllers/tournament.py:122 | the answer-to-action map of the action menu, by position; its only failure is ValueError |
| TournamentController.ActionMenuValues | Controllers/tournament.py:111-121 | the menu's values are MenuActions, in order |
| TournamentController.ActionForKey | Controllers/tournament.py:122 | typing the key of the k-th entry selects the k-th action |
| TournamentController.NumberedMenuSelects | Utils/validators.py:5-10 | on a numbered menu "" gives ValueError and any other deciding answer is the key of some entry k and gives its value |
| TournamentController.ActionMenuSelects | Controllers/tournament.py:122 | on the action menu, `check_multiple_choice` agrees with ActionFor on every deciding answer |
| TournamentController.ActionMenuAnswer | Controllers/tournament.py:122 | a deciding answer yields CREATE only when offered, OPEN only when offered, BACK or QUIT; ValueError for "" |
| TournamentController.RosterGrowthStep | Controllers/tournament.py:225-231 | appending a stored identifier not yet on a roster below the limit keeps the roster growth invariant |
| TournamentController.RosterGrowthTrans | Controllers/tournament.py:221-231 | two roster growths in a row are one growth |
| TournamentController.NameAnswers | Controllers/tournament.py:199-202 | the two names the prompts settle on are non-empty and at least two answers are taken, from the front |
| TournamentController.Selection | Controllers/tournament.py:193-210 | what `_select_a_player` comes to on given answers: EOFError leaves nothing; otherwise at least two answers are taken from the front, and an identifier returned is a stored one |
| TournamentController.EnrolmentRoster | Controllers/tournament.py:221-240 | over Enrolment: the roster grows only by stored identifiers, without duplicates, up to the limit; True only with a full roster, False only with a short one |
| TournamentController.EnrolmentAnswers | Controllers/tournament.py:221-240 | over Enrolment: answers are only taken from the front, and the only error is EOFError when they run out |
| TournamentController.EnrolmentStopsOnNo | Controllers/tournament.py:233-239 | over Enrolment: False comes right after an answer "n" or "N" |
| TournamentController.StopsOnNoLater | Controllers/tournament.py:233-239 | the same for the loop resumed on what is left of the answers |
| TournamentController.TournamentManager.constructor | Controllers/tournament.py:17-19 | the manager holds the given view, tables and settings |
| TournamentController.TournamentManager.AreConditionsMetToCreateTournament | Controllers/tournament.py:68-89 | true iff there are at least N players and at least N free ones (equivalently, N free ones); logs the warning of the first failed condition |
| TournamentController.TournamentManager.AreConditionsMetToStartTournament | Controllers/tournament.py:91-99 | true iff some tournament is stored |
| TournamentController.TournamentManager.GetAnswerInMultiChoices | Controllers/tournament.py:52-66 | the choices are sorted by key; the first answer some key contains decides, through `check_multiple_choice` on the sorted list, and is the answer read last |
| TournamentController.TournamentManager.GetTournamentManagerUserAction | Controllers/tournament.py:100-121 | with nothing to offer: BACK without asking; otherwise a numbered menu with CREATE, OPEN, BACK, QUIT in that order, CREATE or OPEN only when offered, and the answer the menu loop settles on, the answer read last, selects by ActionFor (MenuGave) |
| TournamentController.TournamentManager.AskAction | Controllers/tournament.py:118-121 | on the menu with BACK and QUIT appended, the settling answer is the answer read last and selects by ActionFor, and `check_multiple_choice` agrees; CREATE and OPEN only when offered |
| TournamentController.TournamentManager.GetTimeControl | Controllers/tournament.py:124-131 | the answer the menu loop settles on selects by TimeControlOf, with the answers after it left; EOFError when none is left |
| TournamentController.TournamentManager.GetNotEmptyStr | Controllers/tournament.py:21-34 | exactly what the non-empty loop settles on: the first non-empty answer, with the answers after it left; EOFError when none is left |
| TournamentController.TournamentManager.GetValidDate | Controllers/tournament.py:36-50 | exactly what the date loop settles on: the first valid date, with the answers after it left; EOFError when none is left |
| TournamentController.TournamentManager.GetTournamentInfo | Controllers/tournament.py:161-180 | the six answers TournamentAnswers settles on become name, place, start date, end date, description and time control, in that order; "" at the time control is ValueError; the constructor's defaults; at least six answers read |
| TournamentController.TournamentManager.GetPlayerNames | Controllers/tournament.py:199-202 | the first and last names the two prompts settle on, with the answers after them left; both non-empty |
| TournamentController.TournamentManager.IsPlayerExist | Controllers/tournament.py:182-191 | true exactly when some player record matches the search; "player selected" is shown when true, "player not found" otherwise |
| TournamentController.TournamentManager.SelectAPlayer | Controllers/tournament.py:193-210 | its result and the answers it leaves are exactly Selection of the stored players and the answers; the names are the ones the two prompts settle on; no record of that name: warning and None; otherwise the next answer confirms: "n"/"N" gives None, any other answer the first matching record's identifier |
| TournamentController.TournamentManager.AddPlayersPass | Controllers/tournament.py:222-239 | one pass, against Selection of the answers: a selected identifier not yet on the roster is appended, and only then; after any other selection the next answer is read and the pass says stop exactly when it is "n" or "N" |
| TournamentController.TournamentManager.AskToContinue | Controllers/tournament.py:233-239 | the "not added" warning, then the next answer: stop exactly when it is "n" or "N", and it is the answer read last; EOFError when none is left |
| TournamentController.TournamentManager.AddPlayers | Controllers/tournament.py:212-240 | result, roster and answers left are exactly Enrolment of the stored players, the answers and the roster; the roster only grows at its end, by stored identifiers, without duplicates and up to N; True only with a full roster; False only below N and right after an "n" or "N" answer |
| TournamentController.TournamentManager.SaveTournamentAndUpdatePlayers | Controllers/tournament.py:242-256 | exactly one tournament record (its attributes with "is_over") is appended; exactly the roster's players are marked taken |
| TournamentController.TournamentManager.EnrolAndSave | Controllers/tournament.py:275-282 | the roster saved is the one Enrolment builds from no players; the confirmation is the first answer left after it, and True exactly when that answer is not "n"/"N"; a roster below N is saved only after an "n"/"N" that stopped the adding; on True one record holding the roster is appended and exactly the roster is marked; otherwise nothing is stored |
| TournamentController.TournamentManager.ConfirmAndSave | Controllers/tournament.py:277-282 | the next answer confirms: EOFError when none is left; True exactly when it is not "n"/"N", and then the tournament is saved and its roster marked (SavedTournament); otherwise nothing is stored |
| TournamentController.TournamentManager.CreateTournament | Controllers/tournament.py:258-282 | the answers left after the six tournament prompts feed Enrolment; the confirmation is the first answer left after it, reached whenever the adding ends without EOFError; True exactly when it is not "n"/"N"; a failure or a refusal saves nothing; on True the roster is the one Enrolment builds, exactly its players are marked, and one record holding it is appended |
| TournamentController.TournamentManager.CreateCase | Controllers/tournament.py:291-292 | `_create_tournament` runs and its result is ignored; unless an exception escapes at least one answer is taken; tournaments are only appended |
| TournamentController.TournamentManager.Run | Controllers/tournament.py:284-301 | ends on BACK or QUIT, each given by the menu on the final tables (MenuGave): BACK with nothing offered, otherwise the action ActionFor selects for the answer read last; tournaments are only appended; the player table keeps its length and its unique names |

## Left out

- Views (Views/*.py and Views/ConsoleLineViews/*.py): prompt texts, `print`, `input` and message rendering. The view is reduced to a list of answers and a log of messages. Reading past the last answer is EOFError.
- The operator typing answers forever: the script of answers is finite, so every re-prompt loop ends, at the latest with EOFError.
- Settings/project_config.py is not part of this model. Its two settings become parameters: `TournamentManager.requiredPlayers` for NUMBERS_OF_PLAYERS, and the `numberOfTurns` argument of the `Tournament` constructor for NUMBER_OF_TURNS.
- Settings/db_config.py, which opens the database file, is left out. The two tables are `Table` objects handed to the managers.
- DBManagers/db_manager.py is only an interface. `count_objects_in_db` is read as the length of the table and `get_all_objects_from_table` as the table itself. TinyDB's file storage and its caching of the last identifier are left out. TinyDB's query cache is left out as well. It is keyed by the hash `_generate_query` builds from the frozenset of (field, value) pairs. Two queries that repeat a field in different orders share that hash but not their last pair, so they could share a cached result. The controllers only build queries with two distinct fields.
- The `print` calls are left out: the list of players in `_add_players`, UPDATE in the player menu, and OPEN in the tournament menu. UPDATE and OPEN change nothing.
- `sys.exit()` on QUIT becomes the `Quit` outcome of `Run`.
- `tournament_score` is a float in the source. It is stored as the integer 0, the only value it takes here.
- `tournament_data` and `player_data` return the instance's own `__dict__`, so later writes to the instance show through. This aliasing is left out: the dictionary is a value, and the tournament keeps the "is_over" entry as a field.
- Text: case mapping, `title()` and the digits of `int`/`strptime` are ASCII only. Unicode letters and digits are left out.
- Text.ParseInt: does not accept the surrounding blanks or the underscores that `int()` also accepts. This makes no difference on the menus, where at most nine one-character keys let only the key itself and "" pass the `in` test.
- Dates.ValidDate: does not accept the blank-padded day (" 5/03/2022") that `strptime`'s `%d` also accepts.
- TournamentController.TournamentManager.AddPlayers: does not state the information and warning messages it logs. It states only that the roster only grows, the results and the errors.
- TournamentController.TournamentManager.GetNotEmptyStr: does not state the warnings it logs. The loop it runs, GeneralController.AskAndCheckField, states them.
- TournamentController.TournamentManager.GetValidDate: does not state the warnings it logs. GeneralController.AskValidDate states them.
- TournamentController.TournamentManager.GetTimeControl: does not state the warnings it logs. GeneralController.AskMultipleChoice states them.
- TournamentController.TournamentManager.GetTournamentInfo: does not state the warnings its six prompts log. Each prompt's loop states its own.
- TournamentController.SortByKey: does not state that the sort is stable. Every menu sorted has distinct keys, so stability makes no difference here.
- TournamentController.TournamentManager.GetAnswerInMultiChoices: does not state the warnings it logs. GeneralController.AskMultipleChoice states them.
- PlayersController.PlayerManager.GetInfoPlayer: does not state the warnings logged. Each of its four prompts states its own.
- PlayersController.PlayerManager.CreatePlayer: does not state the "creating a player" information message it shows first.
- TournamentController.TournamentManager.CreateTournament: of the saved tournament record it states the keys, the roster and the number of turns. SaveTournamentAndUpdatePlayers states that the record is the whole attribute dictionary.
- TournamentController.TournamentManager.SelectAPlayer: states only the warning for an unknown name, not the "player selected" information message. TournamentController.TournamentManager.IsPlayerExist states both.

## Findings

| source | as written | input that shows it | evidently intended | confidence | as-written member | corrected member |
|---|---|---|---|---|---|---|
| Controllers/tournament.py:206 | `Player(**object_player)` passes every stored field as a keyword, but `Player.__init__` takes only the four identity fields, so the call raises TypeError | any stored player record, e.g. the eight-field dump of the player "Bob Razowski" saved by `_create_player` | rebuild the player from all the fields of its record | high; not executed | PlayerModel.StoredPlayerRecordRejectedByInit | PlayerModel.PlayerRecordRoundTrip |

`PlayerModel.InitAcceptsKeywords` is the keyword check of `__init__` as written. `StoredPlayerRecordRejectedByInit` proves that it fails on every record `player_data` produces. The corrected `PlayerModel.PlayerFromRecord` rebuilds the player from all eight fields, and `PlayerRecordRoundTrip` proves that it gives back the saved player. `SelectAPlayer` uses the corrected version.
