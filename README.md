# Pasta timer, modelled in Dafny

This project models the core of a pasta cooking timer written in Python. The core has four parts:

- **Countdown timer** (`PastaTimer`). It is a state machine over `TimerState`. `start` counts the remaining seconds down to zero. It notifies every observer of a `tick` before each decrement and of one `finished` event at the end. `cancel` stops a running timer and `reset` returns it to idle with the full count.
- **Catalog** (`PastaDatabase`). It holds eight fixed built-in pasta types and a dictionary of user-added custom ones, keyed by lower-cased name. Lookup is case-insensitive and prefers a custom entry. Custom entries are added after validation, removed by key, and count their uses.
- **Validators.** These are the ordered checks on a custom pasta's name and on its pair of cooking times. Each returns `(valid, message)`.
- **Value types.** `PastaInfo` has its cooking range and a usage counter. `TimerEvent` splits its remaining seconds into minutes and seconds.

The project has one file per module:

| file | module |
|---|---|
| `results.dfy` | `Results`: `Option` and `Result` |
| `strings.dfy` | `Strings`: ASCII `lower`, `strip`, whitespace and letters, and code-point string order |
| `models.dfy` | `Models`: `TimerState`, `PastaInfo` (a class, because its usage count is updated in place), `TimerEvent` |
| `validators.dfy` | `Validators` |
| `timer.dfy` | `Timer`: the `PastaTimer` class, plus the functions that specify a run |
| `dicts.dfy` | `Dicts`: a string-keyed dict that keeps insertion order, as Python's does |
| `pasta_database.dfy` | `Catalog`: the `PastaDatabase` class |

**Observers.** An observer is modelled by its identity and by the set of its callbacks that raise. The timer keeps two logs:

- `events`: every event it notifies.
- `deliveries`: every callback call, with whether that call raised.

The timer swallows a raised exception and goes on to the next observer. `Fanout` says what one notification delivers, and `FanoutAll` says what a sequence of notifications delivers.

**The sleep and the keyboard interrupt.** The one-second sleep in `start` is a step that does nothing. The only outside influence on a run is a keyboard interrupt arriving during a sleep, which the source handles by calling `cancel`. `Start(interrupt)` takes it as a parameter:

- `None` means the run is not interrupted.
- `Some(k)` means the interrupt arrives in the sleep after tick k + 1.

`StartRun` is the specification of a whole run: the events it notifies, the final state and the final count. `Start` is proved to produce exactly that. The lemmas about `StartRun` give the trace properties:

- the number of ticks;
- strictly decreasing remaining values;
- exactly one terminal event;
- no `finished` after a cancel.

**What `timer.py` has, and so what the model has:**

- One timer, with no pause or resume.
- An observer interface with three callbacks: tick, finished and cancelled.
- A `start` that is only allowed from `Idle`.
- `PAUSED` is declared in `TimerState` but never entered.
- `cancel` acts only on a running timer.
- The duration is `int(minutes * 60)`, which truncates toward zero. That is what `TotalSeconds` models.

**Padded names.** `add_custom_pasta` stores the record under `name.lower()` of the name *as entered*, but stores the *stripped* name in the record. The model keeps this behaviour. So a name entered with a trailing space, such as "Ziti ", ends up stored as "Ziti" under the key "ziti ". Neither `get_pasta_info("Ziti")` nor `remove_custom_pasta("Ziti")` reaches it. `Catalog.PaddedNameIsUnreachable` proves this for a fresh catalog.

The model tracks one consistency property of the custom table, `KeysMatch`: every custom key, once stripped, is the lower-cased name of its record.

- Keys stored by `add_custom_pasta` keep this property, because stripping and lower-casing commute (`Strings.StripLower`, `Catalog.AddKeepsKeysMatch`). Removal keeps it too (`Catalog.RemoveKeepsKeysMatch`).
- A table loaded from storage is not proved to satisfy it. The constructor accepts any well-formed custom table, and the results that need the property take it as a hypothesis.
- While it holds, a name whose key is already in use fails validation (`KeyInUseIsTaken`). So a successful add then creates a new key and raises the count by one.

## Model

| member | source | states |
|---|---|---|
| Models.TimerState.Name | timer.py:73 | the state as Python renders an enum member in the refusal message, always starting "TimerState." |
| Models.PastaInfo.constructor | models.py:16-24 | a record built from name and times has the dataclass defaults: not custom, used 0 times, no creation date |
| Models.PastaInfo.Full | models.py:16-24 | a record built with every field holds exactly those fields |
| Models.PastaInfo.TimeRange | models.py:26-28 | the whole minutes `is_valid_time` accepts are exactly those from the first end to the second, so for a non-empty range the pair is (minimum, maximum); each end is accepted exactly when the range is non-empty, and the whole minute just outside each end never is |
| Models.ValidTimesAreTheRange | models.py:26-31 | the whole minutes `is_valid_time` accepts are exactly those between the two ends of `time_range` |
| Models.RangeIsInclusive | models.py:30-31 | both ends of a non-empty range are accepted, and the minute just outside each end is not |
| Models.PastaInfo.IncrementUsage | models.py:33-35 | the usage count goes up by exactly one, and nothing else in the record can change |
| Models.TimerEvent.Minutes | models.py:46-48 | floor division: the minutes are the whole sixties in the remaining seconds, rounding down |
| Models.TimerEvent.Seconds | models.py:50-52 | Python's `% 60`: always in 0..59, and it differs from the remaining seconds by a multiple of 60 |
| Models.MinutesSecondsRecompose | models.py:46-52 | minutes × 60 + seconds gives back the remaining seconds; a non-negative count has non-negative minutes |
| Models.MinutesSecondsExample | models.py:46-52 | 125 seconds is 2 minutes and 5 seconds |
| Strings.LowerChar | validators.py:25 | lower-casing a character leaves no upper-case letter, keeps letters letters and spaces spaces, and changes nothing else |
| Strings.LowerChangesOnlyCase | pasta_database.py:52 | the lower-cased string has the same length, differs from the original only in the case of letters, and holds no upper-case letter |
| Strings.LowerIdempotent | validators.py:25 | lower-casing twice is lower-casing once |
| Strings.LowerEqualIffSameIgnoringCase | pasta_database.py:52 | two strings lower-case to the same string exactly when they differ only in the case of letters |
| Strings.Strip | validators.py:13 | the stripped string is no longer than the original, and neither of its ends is whitespace (space, \t, \n, \v, \f, \r and the separators \x1c..\x1f, as `str.isspace` counts them in ASCII) |
| Strings.StripIsSlice | validators.py:13 | the stripped string is a slice of the original, with only whitespace cut off on either side |
| Strings.StripEmptyIffBlank | validators.py:10 | stripping leaves nothing exactly when the string is empty or all whitespace |
| Strings.StripLower | pasta_database.py:92-101 | stripping and lower-casing commute |
| Strings.CanonicalOfLower | validators.py:25 | a name and its lower-cased form have the same stripped lower-case form |
| Strings.StrLtIrreflexive | pasta_database.py:64 | no string sorts before itself |
| Strings.StrLtTrichotomy | pasta_database.py:64 | any two strings are equal, or one sorts before the other |
| Strings.StrLtAsymmetric | pasta_database.py:64 | two strings never sort before each other |
| Strings.StrLtTransitive | pasta_database.py:64 | the string order is transitive |
| Strings.StrLeTotal | pasta_database.py:64 | any two strings are ordered one way or the other |
| Strings.StrLeTransitive | pasta_database.py:64 | sorting before or equal to is transitive |
| Validators.DuplicateNameMessage | validators.py:26 | the duplicate-name message is never empty |
| Validators.LowerAll | validators.py:25 | the lower-cased list has one entry per name, and its members are exactly the lower-cased forms of the names |
| Validators.TakenIffListed | validators.py:25 | the lower-cased name is in the lower-cased list exactly when some existing name matches it ignoring case |
| Validators.CheckStrippedName | validators.py:13-28 | on the stripped name, in order: under 2 characters, over 50, a character outside letters, space, hyphen and apostrophe, then already taken, each with its own message; accepted exactly when none applies, and then with the empty message |
| Validators.ValidatePastaName | validators.py:8-28 | an empty or all-whitespace name is refused as empty first; then the checks of the stripped name in their fixed order, the first failing one choosing the message; a failure always has a non-empty message and a success the empty one |
| Validators.ValidNameIff | validators.py:10-28 | a name is accepted exactly when, stripped, it is 2 to 50 allowed characters and no existing name matches it ignoring case |
| Validators.AcceptedNameIsThenTaken | validators.py:24-26 | once an accepted name is listed, the same name in any letter case or padding is refused |
| Validators.ValidateCookingTime | validators.py:31-45 | accepted exactly when both times are integers and 1 ≤ minimum ≤ maximum ≤ 60; a non-integer is refused before any range check, then too short, then too long, then minimum above maximum |
| Timer.FanoutDelivers | timer.py:54-68 | a recognised event (`tick`, `finished` or `cancelled`, each with its own callback) reaches every observer once, in list order, through its callback, whether or not an earlier observer raised; an unrecognised kind reaches no callback |
| Timer.FanoutAllLength | timer.py:58-65 | a sequence of recognised events makes one callback call per event per observer |
| Timer.FanoutAllAt | timer.py:58-65 | the calls for each event form one block, after those of every earlier event and before those of every later one |
| Timer.Truncate | timer.py:42 | `int()` of a float truncates toward zero: it lies within one below a non-negative value and within one above a negative one |
| Timer.TotalSeconds | timer.py:42 | 6 in debug mode; otherwise, for non-negative minutes, the whole number of seconds at most one below minutes × 60 |
| Timer.WholeMinutes | timer.py:42 | whole minutes give exactly 60 seconds each |
| Timer.FirstIndex | timer.py:52 | the occurrence `list.remove` deletes is the first: the observer sits at that index and nowhere before it |
| Timer.RemoveFirst | timer.py:51-52 | `list.remove` after the membership test: a present observer's first occurrence (`FirstIndex`) is cut out and the others keep their order; exactly one copy leaves and the list shrinks by one; an absent observer leaves the list unchanged |
| Timer.PastaTimer.constructor | timer.py:36-43 | a new timer is idle, with no observers and no history, and its remaining seconds equal its total |
| Timer.PastaTimer.AddObserver | timer.py:45-47 | the observer is appended at the end |
| Timer.PastaTimer.RemoveObserver | timer.py:49-52 | a present observer loses its first occurrence, the others keeping their order; otherwise nothing changes; one copy leaves the multiset and the length drops by one exactly when it was present |
| Timer.PastaTimer.NotifyObservers | timer.py:54-68 | one event with the current remaining seconds and pasta type is recorded, and every observer receives it as `Fanout` says |
| Timer.PastaTimer.Start | timer.py:70-87 | from any state but Idle it fails with the state named in the message and changes nothing; from Idle the final state, the count, the events and the callback calls are exactly those of `StartRun`, and the count stays between 0 and the total (or at the total, if that is negative) |
| Timer.PastaTimer.Countdown | timer.py:75-87 | the loop and what follows it: ticks with decrements until zero, then `finished`; or, on an interrupt, the ticks so far and then `cancel` |
| Timer.PastaTimer.Emit | timer.py:79 | a notification extends the trace by exactly one event and its callback calls |
| Timer.PastaTimer.CancelRunning | timer.py:86-93 | cancelling a running timer sets Cancelled and extends the trace by exactly the `cancelled` event |
| Timer.PastaTimer.Cancel | timer.py:89-93 | a running timer becomes Cancelled and notifies exactly one `cancelled` event; in every other state nothing changes and nothing is notified |
| Timer.PastaTimer.Reset | timer.py:95-98 | from any state, idle with the full count |
| Timer.ResetTwiceIsResetOnce | timer.py:95-98 | resetting twice leaves the timer as resetting once does, with observers and history kept |
| Timer.RunStaysInRange | timer.py:78-81 | a run started with the count between 0 and the total ends within it |
| Timer.UninterruptedRun | timer.py:78-85 | uninterrupted from R ≥ 0 seconds: R ticks carrying R, R−1, …, 1, then one `finished` carrying 0, ending Finished with nothing left |
| Timer.RunTickCount | timer.py:78-81 | a run notifies one tick per second counted down, or k + 1 ticks when interrupted after tick k + 1 |
| Timer.RunHasOneTerminalEvent | timer.py:83-93 | a run ends with exactly one terminal event as its last event; it matches the final state, and a cancelled run notifies no `finished` |
| Timer.RunRemainingBounds | timer.py:78-81 | from R ≥ 0 the ticks carry strictly decreasing values, every event carries a value in 0..R, and the last event carries the final count |
| Dicts.Dict.Put | pasta_database.py:101 | assignment keeps the dict well formed: a new key goes last, a present key keeps its place, and only that key's value changes |
| Dicts.Dict.Remove | pasta_database.py:108 | deletion keeps the dict well formed and removes only that key: a present key's slot is closed with the other keys in their order, and an absent key changes nothing |
| Dicts.Dict.Values | pasta_database.py:68-72 | one value per key, holding every value of the dict and nothing that is not one |
| Dicts.Size | pasta_database.py:118 | a dict has as many entries as keys listed |
| Catalog.BuiltInNames | pasta_database.py:14-23 | the eight built-in keys are all different and already lower-case, so the lower-cased query of line 52 can reach each of them |
| Catalog.InsertByName | pasta_database.py:64 | inserting adds exactly that record |
| Catalog.SortByName | pasta_database.py:64 | sorting keeps exactly the same records |
| Catalog.InsertByNameSorted | pasta_database.py:64 | inserting into a list ordered by name keeps it ordered |
| Catalog.SortByNameSorted | pasta_database.py:64 | the sorted list is ordered by name |
| Catalog.PutNewRecord | pasta_database.py:91-101 | adding a new record marked custom keeps the custom table a dict of distinct custom records |
| Catalog.AddKeepsKeysMatch | pasta_database.py:92-101 | storing the stripped name under the lower-cased name as entered keeps every stripped key equal to its record's lower-cased name |
| Catalog.RemoveKeepsKeysMatch | pasta_database.py:106-108 | deleting a key keeps every stripped key equal to its record's lower-cased name |
| Catalog.PastaDatabase.constructor | pasta_database.py:13-27 | the built-in table holds the eight declared records, not custom, in order, each with its declared name and times, a usage count of 0 and no creation date; the custom table is what storage loaded |
| Catalog.PastaDatabase.GetPastaInfo | pasta_database.py:50-59 | a custom record is found exactly when the lower-cased name is a custom key, and it wins over a built-in one; otherwise a built-in is found exactly when the lower-cased name is a built-in name, and it is that row's record, with the name and the times the table declares |
| Catalog.PastaDatabase.LookupIgnoresCase | pasta_database.py:50-59 | names differing only in letter case find the same record, or none |
| Catalog.PastaDatabase.GetBuiltInPastaTypes | pasta_database.py:66-68 | the eight built-in records with their declared names and times, in declaration order, none custom |
| Catalog.PastaDatabase.GetCustomPastaTypes | pasta_database.py:70-72 | every custom record, each once, in the order its key was added |
| Catalog.PastaDatabase.GetAllPastaTypes | pasta_database.py:61-64 | the built-in and custom records together, a permutation of the two lists ordered by name |
| Catalog.PastaDatabase.GetPastaNames | pasta_database.py:74-76 | the names of all records in that same order, so sorted |
| Catalog.PastaDatabase.IsCustomPasta | pasta_database.py:112-114 | true exactly when the lookup finds a custom record |
| Catalog.PastaDatabase.GetCustomPastaCount | pasta_database.py:116-118 | the number of custom records listed |
| Catalog.PastaDatabase.AddCustomPasta | pasta_database.py:78-102 | a name failing validation against all current names, built-in included, fails with its message and changes nothing; a valid name with invalid times fails with the time message and changes nothing; otherwise a new custom record with the stripped name, the times, usage 0 and the date is stored under the lower-cased name as entered, the lookup of that name finds it, and the result is the save result; while keys match names the key is new and the count grows by one |
| Catalog.PastaDatabase.StoreNew | pasta_database.py:90-101 | the store step: a fresh custom record is put under the lower-cased name and the catalog stays well formed |
| Catalog.PastaDatabase.CustomNameListed | pasta_database.py:74-81 | every custom record's name is among the names the validator is given |
| Catalog.PastaDatabase.KeyInUseIsTaken | pasta_database.py:81-101 | while keys match names, a name whose key is already in use fails validation |
| Catalog.PastaDatabase.OnlyBuiltInNames | pasta_database.py:61-76 | with no custom records, the names listed are built-in names |
| Catalog.PastaDatabase.RemoveCustomPasta | pasta_database.py:104-110 | a present key is deleted and the save result returned, with the count one lower; an absent one returns false and changes nothing; afterwards the name is not custom, and the built-ins are untouched |
| Catalog.PastaDatabase.IncrementPastaUsage | pasta_database.py:120-125 | a name the lookup finds as custom gains one use; every other custom record and every built-in record keeps its count |
| Catalog.AddPaddedName | pasta_database.py:78-101 | adding "Ziti " to a catalog without custom records succeeds and stores exactly one key, its lower-cased form |
| Catalog.PaddedNameIsUnreachable | pasta_database.py:50-59 | after that add, looking up "Ziti" finds nothing and removing "Ziti" removes nothing |

## Left out

- Storage: loading the custom table is the constructor's `loaded` parameter. The JSON file format, the backup copy and the load-error path are not modelled.
- Saving: the outcome is the boolean parameter `saved`. `IncrementPastaUsage` ignores it, as the source does.
- The clock: `created_date` is the parameter `createdDate`, standing for `datetime.now().isoformat()`.
- `get_random_fact`: it depends on randomness.
- `SoundNotifier` and the sound library: they are I/O.
- The front ends, the settings, and the threaded timer manager the web front end imports: they are I/O or concurrency, and the manager is not part of timer.py.
- `time.sleep`: a step with no effect.
- Keyboard interrupts: one arriving anywhere other than a sleep is not modelled, nor is any exception other than the ones observers raise.
- The `additional_data` field of an event: the timer never sets it.
- Observer callbacks: they are modelled by what they receive and whether they raise. A callback that changes the timer while it is being notified (re-entrancy) is not modelled.
- The string `print`ed for an observer error is not modelled.
- Floating point: `minutes` is an exact `real`, so `TotalSeconds` truncates the exact product. A float product that rounds just below a whole number of seconds is not modelled.
- Unicode: letters, whitespace and lower-casing are ASCII only. Python's `isalpha`, `strip` and `lower` also act on non-ASCII characters.
- Models.PastaInfo.TimeRange: for an empty range (minimum above maximum, which only a table loaded from storage can hold), the contract says only that neither end is accepted. It does not pin the pair to (minimum, maximum) in that case.
- Strings.Strip: strips only the ASCII whitespace characters. Non-ASCII whitespace such as \x85, \xa0 or \u2003, which `str.strip` also removes, is kept.
- Python string comparison is modelled as order by code point, which is what it is for `str`.
- Catalog.SortByName: proved to be a permutation ordered by name. That it is stable for equal names, as Python's `sorted` is, is not proved.
- Validators.ValidateCookingTime: a Python `bool` passes `isinstance(x, int)`. The `Minutes` datatype has no separate case for it: a bool is a `Whole` 0 or 1.
- `PastaInfo` fields other than `usage_count` are `const`, because nothing in the core assigns them.
