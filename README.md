# cleany's chore-rotation engine, in Dafny

cleany rotates a household's recurring chores among the users of each room. It keeps the
assigned chores in a list sorted by due date, and it keeps repetition-counted ("indefinite")
chores in a list sorted by name. Each list writes its whole contents to a JSON file after every
change. A ledger of per-user scores does the same with a JSON object. This project models that
engine with the Kivy user interface removed:

- **The two task stores** (`Tasks`, `IndefiniteTasks`):
  - classes whose `contents` and `file` fields every mutator updates;
  - Python's list semantics (negative indices, clamped insert, remove and index by the first
    equal element) in module `PyList`;
  - the due date's `YYYY-MM-DD` text, written by `str(date)` and read back by
    `strptime('%Y-%m-%d')`, in module `Dates`, over Python's proleptic Gregorian ordinals.
  - `cleany/data.py` lines 1-198 are the same text as `cleany/tasks.py` lines 1-198, so modules
    `TaskStore` and `IndefiniteStore` model both copies. The rows below cite `cleany/tasks.py`.
- **The ledger** (`_Users`, `Users` in `cleany/data.py`): an insertion-ordered dict (module
  `Dicts`) that persists itself, and the score operations on top of it (module `Ledger`).
- **The manager** (`cleany/__init__.py`), in modules `Period`, `Rotation` and `Manager`:
  - the period parser;
  - round-robin choice of the next user;
  - `_assign_task` with its `bisect.insort`;
  - first-run seeding of both stores;
  - completing a dated chore and completing one repetition of an indefinite chore;
  - the colour of a queued task.
  - The configuration read from `tasks.yaml` and the current date are parameters.

A stored file is a value `StoredFile<T>`:
- `Missing` means there is no file;
- `Corrupt` means valid UTF-8 text that is not JSON;
- `Saved(records)` means what the store last wrote.

The ledger's file holds the dict itself. Each store has a `Valid()` invariant: loading its file
gives back its contents. After a successful mutator `Persisted()` also holds: the file is exactly
what `_save` writes for the contents.

Some consequences of the code that the model keeps:
- Seeding a room starts from `users[0]` (`cleany/__init__.py:142`), so the room's first chore
  goes to `users[1 mod n]`.
- The period is the chore's bare string (`cleany/__init__.py:125`).
- A period whose last character is not `d`, `w` or `m` is one day. An unreadable count raises
  `ValueError`.
- `increment(name)` with no entry of that name bumps the last entry, because the loop variable
  is left at the last index. On an empty list it raises `UnboundLocalError`
  (`cleany/tasks.py:182-185`).
- A stored record whose date does not parse raises `ValueError` out of the store's constructor.
  Only a missing file and JSON that does not decode load as the empty list
  (`cleany/tasks.py:59-64`).

## Model

| member | source | states |
|---|---|---|
| PyList.Normalize | cleany/tasks.py:90-93 | a Python index names a position exactly when `-n <= i < n`, and a negative index counts from the end |
| PyList.InsertPosition | cleany/tasks.py:82-84 | `list.insert` clamps its position to `[0, n]` after counting a negative index from the end |
| PyList.Index | cleany/__init__.py:118 | `list.index` succeeds exactly when the value is present, returns a position holding it with no earlier occurrence, and otherwise raises ValueError |
| PyList.SetItem | cleany/tasks.py:70-72 | `list[i] = v` replaces exactly the normalized position and leaves every other element unchanged; out of range raises IndexError |
| PyList.Insert | cleany/tasks.py:82-84 | the result is the prefix, v, then the suffix at the clamped position; it is a permutation of the list plus v |
| PyList.Remove | cleany/tasks.py:86-88 | `list.remove` drops the first equal element, so the length drops by one and the multiset loses v; an absent value raises ValueError |
| PyList.Pop | cleany/tasks.py:90-93 | `list.pop(i)` returns the element at the normalized position and the list without it; out of range raises IndexError |
| Digits.DigitChar | cleany/tasks.py:68 | the character written for a digit is a digit character whose value is that digit |
| Digits.Value | cleany/tasks.py:20 | the number that digit text denotes is below 10 to the power of its length |
| Digits.Pad | cleany/tasks.py:68 | zero-padded text of width w is exactly w digit characters |
| Digits.ValueOfPad | cleany/tasks.py:20 | reading back zero-padded text gives the number, for every number that fits in the width |
| Digits.PadOfValue | cleany/tasks.py:68 | padding the value of any digit text to its own width gives the text back |
| Digits.Show | cleany/__init__.py:50 | `str(n)` is never empty |
| Digits.TrimLeft | cleany/__init__.py:50 | `int()` strips leading whitespace: the ASCII whitespace of the C locale (tab to carriage return and the space) and the non-ASCII Unicode whitespace, but not the separators U+001C to U+001F: the result is no longer than the input and does not start with whitespace |
| Digits.TrimRight | cleany/__init__.py:50 | the same at the end of the text, for the same whitespace |
| Digits.DropUnderscores | cleany/__init__.py:50 | the digits left after dropping underscores are all digits, and text without underscores is unchanged |
| Digits.DigitsIn | cleany/__init__.py:50 | the digits counted for the length limit are no more than the characters, and all of them for text of digits only |
| Digits.ParseGroups | cleany/__init__.py:50 | signed text has a value exactly when, after an optional sign, it is digits with single underscores between them; otherwise ValueError |
| Digits.ParseSigned | cleany/__init__.py:50 | `int()` accepts signed text exactly when it is digit groups of at most 4300 digits, CPython's default limit on decimal conversion; otherwise ValueError |
| Digits.ParseInt | cleany/__init__.py:50 | `int()` of text that is not a number, or has more digits than the limit, raises ValueError |
| Digits.ShowNonNegative | cleany/__init__.py:50 | `str(n)` of a non-negative n is digit text whose value is n |
| Digits.DigitGroupsOfShow | cleany/__init__.py:50 | `str(n)` of a non-negative n is accepted by `int()`'s digit grammar and has no underscore to drop |
| Digits.TrimShow | cleany/__init__.py:50 | `str(n)` has no surrounding whitespace for `int()` to strip |
| Digits.ParseNegative | cleany/__init__.py:50 | `int(str(n))` is n for a negative n of at most 4300 digits, and ValueError past that |
| Digits.ParseUnsigned | cleany/__init__.py:50 | `int(str(m))` is m for a non-negative m of at most 4300 digits, and ValueError past that |
| Digits.ShowNegative | cleany/__init__.py:50 | `str(n)` of a negative n is `"-"` followed by `str(-n)` |
| Digits.ParseSignedDigits | cleany/__init__.py:50 | signed text whose unsigned part is plain digits has their value, negated after a minus, within the digit limit, and ValueError past it |
| Digits.ParseIntOfShow | cleany/__init__.py:50 | `int(str(n)) == n` for every integer n of at most 4300 digits; a longer one's text raises ValueError |
| Dates.YearOf | cleany/tasks.py:68 | the year searched for contains the ordinal: it lies after the days before that year and within that year's days |
| Dates.MonthOf | cleany/tasks.py:68 | the month and day found for a day of the year are a valid date whose days before the month plus the day give that day of the year |
| Dates.InYear | cleany/tasks.py:68 | the civil date of day `doy` of year y is valid, in year y, and falls on that day of the year |
| Dates.FromOrdinal | cleany/tasks.py:68 | `date.fromordinal` gives a valid civil date |
| Dates.ToFromOrdinal | cleany/tasks.py:68 | `toordinal(fromordinal(n)) == n` for every date in range |
| Dates.ToOrdinal | cleany/tasks.py:20 | the date's proleptic Gregorian ordinal, which `strptime(...).date()` holds; `Dates.ToOrdinalInRange`, `Dates.FromToOrdinal` and `Dates.ToFromOrdinal` state its range and that it inverts `date.fromordinal` |
| Dates.ToOrdinalInRange | cleany/tasks.py:20 | every valid civil date between years 1 and 9999 has an ordinal in `[1, 3652059]` |
| Dates.InYearOf | cleany/tasks.py:20 | the civil date found from a date's own year and day of the year is that date |
| Dates.FromToOrdinal | cleany/tasks.py:20 | `fromordinal(toordinal(c)) == c` for every valid civil date |
| Dates.Format | cleany/tasks.py:68 | `str(date)` is ten characters with dashes at positions 4 and 7 |
| Dates.Parse | cleany/tasks.py:20 | `strptime('%Y-%m-%d')` of text that is not a date in range raises ValueError |
| Dates.ParseFormat | cleany/tasks.py:18-20 | parsing what `str(date)` wrote gives back the same date |
| Dates.FormatOfText | cleany/tasks.py:20 | writing out the year, month and day fields of date-shaped text gives back the same text |
| Dates.FormatParse | cleany/tasks.py:20 | any text that parses to a date is exactly the text `str()` writes for that date |
| TaskStore.NewTask | cleany/tasks.py:26-42 | `new_task` holds exactly the five given fields |
| TaskStore.Less | cleany/tasks.py:22-23 | `_Task.__lt__` orders tasks by due date alone, so insort and the list's sortedness (`TaskStore.Sorted`, `TaskStore.InsertSortedSplit`) look at no other field |
| TaskStore.Encode | cleany/tasks.py:66-68 | the record `_save` writes holds a date text that parses back to its due date |
| TaskStore.Decode | cleany/tasks.py:12-20 | the `_Task` hook succeeds exactly when the due-date text parses, raises ValueError otherwise, and encoding its result gives back the record |
| TaskStore.EncodeAll | cleany/tasks.py:66-68 | `_save` writes one record per task, in list order, each that task's own record |
| TaskStore.DecodeAll | cleany/tasks.py:59-64 | `json.load` with the hook succeeds exactly when every record's date parses |
| TaskStore.Load | cleany/tasks.py:59-64 | a missing or non-JSON file loads as the empty list |
| TaskStore.LoadEncoded | cleany/tasks.py:59-68 | loading what `_save` wrote gives back the same tasks in the same order |
| TaskStore.LoadedRecordsAreEncoded | cleany/tasks.py:59-68 | whatever records load successfully are exactly what `_save` writes for the loaded tasks |
| TaskStore.Tasks.Loaded | cleany/tasks.py:55-57 | a store built from a file and its loaded contents agrees with its file |
| TaskStore.Tasks.Open | cleany/tasks.py:55-64 | the constructor raises exactly the load's error; otherwise the new store holds the loaded tasks and agrees with its file |
| TaskStore.Tasks.Save | cleany/tasks.py:66-68 | `_save` leaves the contents unchanged and makes the file exactly their encoding |
| TaskStore.Tasks.SetItem | cleany/tasks.py:70-72 | `store[i] = v` is the list assignment, then a write; an index error changes neither contents nor file |
| TaskStore.Tasks.Append | cleany/tasks.py:74-76 | appends v and persists |
| TaskStore.Tasks.Extend | cleany/tasks.py:78-80 | appends the given tasks in order and persists |
| TaskStore.Tasks.Insert | cleany/tasks.py:82-84 | inserts at the clamped position and persists |
| TaskStore.Tasks.Remove | cleany/tasks.py:86-88 | removes the first equal task and persists; an absent task raises ValueError and writes nothing |
| TaskStore.Tasks.Pop | cleany/tasks.py:90-93 | returns the removed task and persists the rest; an index error writes nothing |
| TaskStore.Tasks.Clear | cleany/tasks.py:95-97 | empties the list and persists |
| TaskStore.InsertSorted | cleany/__init__.py:129 | insort adds exactly one element |
| TaskStore.InsertSortedMultiset | cleany/__init__.py:129 | insort's result is a permutation of the list plus the new task |
| TaskStore.UpperBound | cleany/__init__.py:129 | the insort position comes after every task due no later than x and, when there is one, at a task due later |
| TaskStore.InsertSortedSplit | cleany/__init__.py:129 | in a sorted list insort places the new task after every task due on or before it, ties included, and before every task due later |
| TaskStore.InsertSortedSorted | cleany/__init__.py:128-129 | insort into a list sorted by due date keeps it sorted |
| TaskStore.SplitSorted | cleany/__init__.py:128-129 | placing a task between the tasks due no later and the tasks due later keeps a sorted list sorted |
| TaskStore.SplitIsInsertSorted | cleany/__init__.py:129 | splitting at any position that separates "due no later" from "due later" gives insort's list |
| TaskStore.BisectRight | cleany/__init__.py:129 | the binary search of `bisect.insort` finds a position in range, and on a sorted list it is the insort position |
| TaskStore.Insort | cleany/__init__.py:129 | `bisect.insort` on the store adds exactly the new task, makes the insort list of a sorted store, and persists |
| TaskStore.RemoveKeepsSorted | cleany/__init__.py:180 | removing a task from a sorted list leaves it sorted |
| TaskStore.InsertAll | cleany/__init__.py:141-144 | a run of insorts gives a permutation of all the tasks, and a sorted list stays sorted |
| StrOrder.Less | cleany/tasks.py:111-112 | Python's `<` on str, lexicographic by code point; `StrOrder.PrefixLess` and the lemmas below state its order properties |
| StrOrder.PrefixLess | cleany/tasks.py:111-112 | a proper prefix sorts before the longer string |
| StrOrder.LessIrreflexive | cleany/tasks.py:111-112 | no name is less than itself |
| StrOrder.LessTransitive | cleany/tasks.py:111-112 | string `<` is transitive |
| StrOrder.LessTotal | cleany/tasks.py:111-112 | two distinct names are ordered one way or the other |
| StrOrder.NotLessTransitive | cleany/tasks.py:111-112 | "not less" chains, so a list sorted by name is ordered end to end |
| StrOrder.LessAsymmetric | cleany/tasks.py:111-112 | a < b excludes b < a |
| StrOrder.LessNotLessTransitive | cleany/tasks.py:111-112 | a < b and not c < b give a < c |
| IndefiniteStore.NewIndefiniteTask | cleany/tasks.py:115-124 | `new_indefinite_task` starts at repetition 1 with the given user, name and total; its counter is in range exactly when the total is at least 1 |
| IndefiniteStore.Less | cleany/tasks.py:111-112 | `_IndefiniteTask.__lt__` orders entries by name alone, with Python's string order; the `StrOrder` lemmas make it a strict total order on names |
| IndefiniteStore.Load | cleany/tasks.py:137-142 | a missing or non-JSON file loads as the empty list; a saved file loads as what was saved |
| IndefiniteStore.IncrementIndex | cleany/tasks.py:182-184 | the scan stops at the first entry with the name, no earlier entry has it, and when no entry has it the scan ends at the last entry |
| IndefiniteStore.Bumped | cleany/tasks.py:185 | `rep += 1` adds exactly one and changes no other field |
| IndefiniteStore.IndefiniteTasks.Open | cleany/tasks.py:133-142 | the constructor loads the file and agrees with it |
| IndefiniteStore.IndefiniteTasks.Save | cleany/tasks.py:144-146 | `_save` leaves the contents unchanged and makes the file exactly them |
| IndefiniteStore.IndefiniteTasks.SetItem | cleany/tasks.py:148-150 | the list assignment, then a write; an index error changes neither contents nor file |
| IndefiniteStore.IndefiniteTasks.Append | cleany/tasks.py:152-154 | appends and persists |
| IndefiniteStore.IndefiniteTasks.Extend | cleany/tasks.py:156-158 | appends in order and persists |
| IndefiniteStore.IndefiniteTasks.Insert | cleany/tasks.py:160-162 | inserts at the clamped position and persists |
| IndefiniteStore.IndefiniteTasks.Remove | cleany/tasks.py:164-166 | removes the first equal entry and persists; an absent entry raises ValueError and writes nothing |
| IndefiniteStore.IndefiniteTasks.Pop | cleany/tasks.py:168-171 | returns the removed entry and persists the rest; an index error writes nothing |
| IndefiniteStore.IndefiniteTasks.Clear | cleany/tasks.py:173-175 | empties the list and persists |
| IndefiniteStore.IndefiniteTasks.Increment | cleany/tasks.py:177-187 | bumps the entry the scan stops at by exactly one, leaves every other entry unchanged, persists, and returns that index and the updated entry; an empty list raises UnboundLocalError and writes nothing |
| IndefiniteStore.IndefiniteTasks.Reset | cleany/tasks.py:189-198 | the entry at index goes back to repetition 1 with the new user, keeps its name and total, every other entry is unchanged, and the list persists; an index out of range raises IndexError and writes nothing |
| IndefiniteStore.InsertSorted | cleany/__init__.py:152 | insort by name adds exactly one element |
| IndefiniteStore.InsertSortedMultiset | cleany/__init__.py:152 | insort's result is a permutation of the list plus the new entry |
| IndefiniteStore.UpperBound | cleany/__init__.py:152 | the insort position comes after every name not after x's and, when there is one, at a name after it |
| IndefiniteStore.SplitIsInsertSorted | cleany/__init__.py:152 | splitting at a position that separates "not after x" from "after x" gives insort's list |
| IndefiniteStore.AfterUpperBound | cleany/__init__.py:152 | in a sorted list every entry from the insort position on has a greater name |
| IndefiniteStore.InsertSortedSorted | cleany/__init__.py:152 | insort into a list sorted by name keeps it sorted |
| IndefiniteStore.SplitSorted | cleany/__init__.py:152 | placing an entry between the names not after it and the names after it keeps a sorted list sorted |
| IndefiniteStore.BisectRight | cleany/__init__.py:152 | the binary search by name finds a position in range, and on a sorted list it is the insort position |
| IndefiniteStore.Insort | cleany/__init__.py:152 | `bisect.insort` on the store adds exactly the new entry, makes the insort list of a sorted store, and persists |
| IndefiniteStore.InsertAll | cleany/__init__.py:148-152 | a run of insorts by name gives a permutation of all entries, and a sorted list stays sorted |
| Dicts.Empty | cleany/data.py:212-218 | the empty dict is well formed and has no keys |
| Dicts.Get | cleany/data.py:274-276 | `d[k]` is the value of k, or KeyError exactly when k is absent |
| Dicts.Set | cleany/data.py:225-227 | `d[k] = v` maps k to v, keeps an existing key's place, and appends a new key last |
| Dicts.DropDistinct | cleany/data.py:229-231 | dropping one position of a list without repetitions leaves each other element exactly once |
| Dicts.DropKey | cleany/data.py:229-231 | dropping a key and its entry leaves a well-formed dict with exactly that key fewer |
| Dicts.Delete | cleany/data.py:229-231 | `del d[k]` removes exactly k and its entry and keeps the other keys in their order, or raises KeyError exactly when k is absent |
| Dicts.Pop | cleany/data.py:241-244 | `d.pop(k, default)` returns k's value and removes k, keeping the other keys in their order, or returns the default when k is absent and nothing changes |
| Dicts.PopItem | cleany/data.py:246-249 | `d.popitem()` removes and returns the newest entry; an empty dict raises KeyError |
| Dicts.ItemsOf | cleany/data.py:290-294 | the items of a list of keys are those keys paired with their values, in order |
| Dicts.Items | cleany/data.py:290-294 | `d.items()` pairs each key with its value in insertion order |
| Dicts.Update | cleany/data.py:233-235 | `d.update(pairs)` keeps every existing key, in its old place, and the last pair's key maps to its value; the dict stays well formed |
| Dicts.Names | cleany/data.py:233-235 | the keys a list of pairs names are exactly the first components of its pairs |
| Dicts.UpdateKeys | cleany/data.py:233-235 | after `d.update(pairs)` the keys are those of d and those the pairs name, and no others |
| Dicts.UpdateLastWinsAt | cleany/data.py:233-235 | a pair that no later pair overrides decides its key's value |
| Dicts.UpdateLastWins | cleany/data.py:233-235 | every key the pairs name maps to the value of the last pair naming it |
| Dicts.UpdateUntouchedAt | cleany/data.py:233-235 | a key of d that no pair names keeps its value |
| Dicts.UpdateUntouched | cleany/data.py:233-235 | every key of d that no pair names keeps its value |
| Dicts.UpdateWithItemsOf | cleany/data.py:233-235 | building a dict from the items of distinct keys gives those keys in that order with their own values |
| Dicts.RestrictSnoc | cleany/data.py:233-235 | restricting a map to one more key adds exactly that key's entry |
| Dicts.ItemsRoundTrip | cleany/data.py:290-294 | `dict(d.items()) == d`, order included |
| Dicts.DistinctCard | cleany/data.py:284-288 | a list without repetitions has as many distinct elements as positions |
| Dicts.SizeOfValid | cleany/data.py:284-288 | `len(d)` is the number of keys in the order |
| Dicts.SumOfAdd | cleany/data.py:267-268 | adding delta to one listed key's value adds delta to the sum of all values |
| Dicts.SumOfUnchanged | cleany/data.py:267-268 | the sum over keys whose values agree is the same |
| Ledger.Load | cleany/data.py:212-218 | a missing or non-JSON file loads as the empty dict; a saved file loads as the saved dict |
| Ledger.UpAndDownScores | cleany/data.py:259-268 | both users present: up gains one, down loses one, every other score and the key order are unchanged, and the total is conserved; else KeyError |
| Ledger.UpAndDownSelf | cleany/data.py:259-268 | a point moved from a user to the same user changes nothing |
| Ledger.InitiateTotal | cleany/data.py:278-282 | `initiate_user(u)` lowers the total by exactly u's previous score (0 for a new user) |
| Ledger.UserTable.Open | cleany/data.py:208-218 | the constructor loads the file and agrees with it |
| Ledger.UserTable.Save | cleany/data.py:220-223 | `_save` leaves the dict unchanged and makes the file exactly it |
| Ledger.UserTable.GetItem | cleany/data.py:274-276 | the stored value, present exactly when the key is |
| Ledger.UserTable.SetItem | cleany/data.py:225-227 | `d[k] = v`, then a write |
| Ledger.UserTable.DelItem | cleany/data.py:229-231 | `del d[k]`, then a write; KeyError writes nothing |
| Ledger.UserTable.UpdateWith | cleany/data.py:233-235 | `update(pairs)`, then a write |
| Ledger.UserTable.Clear | cleany/data.py:237-239 | empties the dict, then a write |
| Ledger.UserTable.Pop | cleany/data.py:241-244 | `pop(k, default)` returns the value or the default and writes, even when k was absent |
| Ledger.UserTable.PopItem | cleany/data.py:246-249 | removes and returns the newest entry, then writes; an empty dict raises KeyError and writes nothing |
| Ledger.Users.Open | cleany/data.py:256-257 | the ledger opens its table on the file |
| Ledger.Users.UpAndDown | cleany/data.py:259-268 | with both users present the scores become `UpAndDownScores` and persist; with either absent KeyError, and the scores and the file are unchanged |
| Ledger.Users.GetScore | cleany/data.py:270-276 | the user's stored score, or KeyError exactly when the user is absent |
| Ledger.Users.InitiateUser | cleany/data.py:278-282 | the user's score becomes 0 whether or not it existed, every other score is unchanged, and the ledger persists |
| Ledger.Users.Size | cleany/data.py:284-288 | the number of users listed |
| Ledger.Users.All | cleany/data.py:290-294 | every (user, score) pair in insertion order, from which the ledger's dict is rebuilt exactly |
| Period.ParsePeriod | cleany/__init__.py:48-57 | empty text raises IndexError, an unreadable count ValueError, an unknown unit gives one day, and the days never exceed what a timedelta holds |
| Period.UnitDays | cleany/__init__.py:49-57 | exactly `d`, `w` and `m` are units with a day count, which is positive; `Period.ParsePeriodOfCount` gives their meaning, 1, 7 and 30 days |
| Period.ParsePeriodOfCount | cleany/__init__.py:48-57 | `"<n>d"` is n days, `"<n>w"` 7n, `"<n>m"` 30n, any other unit one day, for every count `str()` writes within the 4300-digit limit (ValueError past it); a count past the timedelta range overflows |
| Rotation.NextUser | cleany/__init__.py:117-122 | succeeds exactly when the current user is listed, else ValueError; the result is the user after the current one's first position, or the first user after the last |
| Rotation.NextUserIsMod | cleany/__init__.py:191 | the wrap-around step is `users[(users.index(current) + 1) % len(users)]` |
| Rotation.Advance | cleany/__init__.py:117-122 | k rotations of the holder, where any failure is the ValueError of `users.index`; `Rotation.AdvanceAt` and `Rotation.RoundRobinClosure` give where they lead |
| Rotation.FirstRotation | cleany/__init__.py:117-122 | one rotation from the first user reaches `users[1 mod n]` |
| Rotation.NextOfDistinct | cleany/__init__.py:117-122 | in a list of distinct users, the user after position p is the one at the next position, or the first after the last |
| Rotation.AdvanceAt | cleany/__init__.py:117-122 | in a list of distinct users, k rotations from position p reach the position k wrap-around steps on |
| Rotation.RoundRobinClosure | cleany/__init__.py:117-122 | rotating a chore as many times as there are distinct users brings it back to its holder |
| Manager.QueuedColor | cleany/__init__.py:37-45 | yellow exactly when due today, red exactly when overdue, green exactly when due later |
| Manager.Rgba | cleany/__init__.py:40-45 | every colour is opaque with no blue; the red channel is on for all but green and the green channel for all but red |
| Manager.QueuedRgba | cleany/__init__.py:37-45 | `_queued_color` returns (1, 1, 0, 1) exactly when the task is due today, (1, 0, 0, 1) exactly when overdue and (0, 1, 0, 1) exactly when due later |
| Manager.ColorMonotone | cleany/__init__.py:37-45 | as days pass, a task's colour only moves towards red |
| Manager.SortedColors | cleany/__init__.py:159-166 | down a list sorted by due date the colours never get more urgent |
| Manager.NextTaskIn | cleany/__init__.py:115-126 | the new task is for the next user, in the room, for the chore, with its period text, due that period after today; errors in source order: ValueError for a holder not listed, KeyError for an unknown chore, the parser's error, OverflowError past the last date |
| Manager.NextTask | cleany/__init__.py:114 | an unknown room raises KeyError; otherwise the room's task |
| Manager.Assign | cleany/__init__.py:111-130 | exactly the one new task is added and the new holder returned; in a sorted store it goes after every task due on or before it and before every later one, and the store stays sorted |
| Manager.AssignTaskAsWritten | cleany/__init__.py:129 | as written `_assign_task` always raises; after every earlier step succeeds the error is TypeError |
| Manager.AssignTaskAsWrittenFails | cleany/__init__.py:129 | for a concrete household, as written the chore is lost with TypeError while the corrected assignment hands it to the next user |
| Manager.AssignInto | cleany/__init__.py:128-130 | on the store: an error changes neither contents nor file; success adds exactly the new task, persists, and makes the insort list of a sorted store |
| Manager.RoomRun | cleany/__init__.py:140-145 | the tasks and final holder of one room's seeding loop; `Manager.RoomRunHolders`, `Manager.RoomRunFirstHolder` and `Manager.RoomRunErr` state what they are |
| Manager.RoomRunHolders | cleany/__init__.py:141-144 | one task per chore, in order, for that room and chore; the k-th chore's holder is k + 1 rotations from `users[0]`, and the loop ends at the last chore's holder |
| Manager.RoomRunFirstHolder | cleany/__init__.py:142-144 | a room's first chore goes to `users[1 mod n]` |
| Manager.RoomRunErr | cleany/__init__.py:143-144 | once a chore fails, the room's seeding fails with that error |
| Manager.RoomSeeds | cleany/__init__.py:142-144 | a room with no users raises IndexError at `details['users'][0]`, whether or not it has chores; otherwise its seeding loop's tasks |
| Manager.RoomSeedsTasks | cleany/__init__.py:142-144 | a room seeded without error gets one task per chore, in order, for that room and chore, and the k-th chore's holder is k + 1 rotations from `users[0]` |
| Manager.SeedRun | cleany/__init__.py:141 | the tasks of the rooms' seeding loops, room after room; `Manager.SeedRunErr`, `Manager.SeededStore` and `Manager.SeedAssigned` state what they give |
| Manager.SeedRunErr | cleany/__init__.py:141 | once a room fails, seeding fails with that error |
| Manager.Seeds | cleany/__init__.py:140-144 | the tasks a first run creates, room after room; `Manager.SeededStore` and `Manager.SeedAssigned` state the store they make |
| Manager.SeededStore | cleany/__init__.py:138-144 | a successful first run leaves every created task, as a permutation, sorted by due date |
| Manager.SortedFromEmpty | cleany/__init__.py:140-144 | a run of insorts into the empty store is sorted |
| Manager.SeedRoomFail | cleany/__init__.py:143-144 | a failed `_assign_task` is the room's failure |
| Manager.SeedChore | cleany/__init__.py:144 | one inner-loop pass: failure leaves the store as it was; success inserts the run's next task and returns its holder |
| Manager.SeedRoom | cleany/__init__.py:141-144 | one room's loop inserts the room's tasks in order, or fails with the run's error; the store stays sorted |
| Manager.SeedAssigned | cleany/__init__.py:138-144 | a non-empty store is left alone; an empty one becomes `SeededStore`, or the run's error is raised |
| Manager.IndefiniteRun | cleany/__init__.py:147-152 | the entries the indefinite seeding loop creates, in file order; `Manager.IndefiniteRunEntries` and `Manager.IndefiniteRunErr` state what they are |
| Manager.IndefiniteRunEntries | cleany/__init__.py:149-152 | each indefinite chore starts at repetition 1 with the first user of its list and its repetitions |
| Manager.IndefiniteRunErr | cleany/__init__.py:149-152 | once a chore fails, indefinite seeding fails with that error |
| Manager.RepsInRangeOfPermutation | cleany/__init__.py:152 | reordering entries keeps every counter in range |
| Manager.SeededIndefinite | cleany/__init__.py:146-152 | a first run leaves the created entries sorted by name, with every counter in range when every chore has a repetition |
| Manager.SeedIndefinite | cleany/__init__.py:146-152 | a non-empty store is left alone; an empty one becomes `SeededIndefinite`, or IndexError is raised at the first chore with no users, leaving the insorts of the chores before it |
| Manager.Complete | cleany/__init__.py:179-181 | an absent task raises ValueError with nothing changed; a failed reassignment leaves it removed and raises its error; otherwise the same chore of the same room goes to the next user, the length is unchanged, and sortedness is kept |
| Manager.CompleteIndefinite | cleany/__init__.py:184-192 | only the bumped entry changes; past its total it restarts at 1 with the next user; names and totals are kept, and counters in range stay in `[1, total]` |
| Manager.TaskManager.Of | cleany/__init__.py:62-63 | the manager holds the given configuration and stores |
| Manager.TaskManager.Start | cleany/__init__.py:132-152 | opening raises a stored bad date's ValueError; it succeeds exactly when the dated store loads and both seedings that run succeed, and otherwise raises the first failure's error; an empty dated store becomes `SeededStore`, an empty indefinite store `SeededIndefinite`, and a non-empty store keeps what it loaded |
| Manager.TaskManager.AssignTask | cleany/__init__.py:111-130 | `_assign_task`, corrected: an error changes nothing; success adds exactly the new task and persists; a sorted store gets the `Assign` list |
| Manager.TaskManager.CompleteTask | cleany/__init__.py:179-181 | an absent task raises ValueError and writes nothing; success swaps it for its successor and persists; a sorted store gets the `Complete` list |
| Manager.TaskManager.CompleteIndefiniteTask | cleany/__init__.py:184-192 | the outcome and the list are `CompleteIndefinite`'s, and persist unless the list was empty |

## Left out

- The Kivy interface: the layout, `_display_tasks` and its buttons, the label text of line 193 of
  `cleany/__init__.py`, the clock callbacks and `CleanyApp`. They are presentation only.
- `cleany/weather.py`, `cleany/schema.py` and `main.py` are not part of this model. They are
  HTTP, YAML schema checking and argument dispatch.
- `_load_yaml` and `_get_filepath`: the configuration is a parameter, already read as
  dictionaries.
- A configuration entry without `users`, `tasks` or `repititions`, and values of the wrong type.
  The model's configuration always has these fields.
- A room lookup that fails is modelled as KeyError.
- `datetime.now()`: today is a parameter. `(datetime.now() + period).date()` is today plus the
  period's whole days, because a period is always whole days.
- A file that is not valid UTF-8 raises `UnicodeDecodeError` out of `_load`, because the handlers
  at `cleany/tasks.py:63`, `cleany/tasks.py:141` and `cleany/data.py:217` catch only
  `FileNotFoundError` and `json.JSONDecodeError`. The model has no such file: `Corrupt` loads as
  empty.
- File I/O and JSON text. A file is its decoded value. A write that fails or stops halfway is not
  modelled.
- A JSON task record with missing or extra fields, and a ledger object with non-integer values or
  duplicate keys, are not modelled.
- TaskStore.Tasks.Remove: Python's `list.remove` compares `_Task` objects by identity, because
  `_Task` defines no `__eq__`; the model removes the first task equal as a value. The two agree
  when the argument is an object read from the store, as at the only call site
  (`cleany/__init__.py:160,168,179-180`), and no earlier entry has the same five fields. With
  such an earlier entry Python removes the later object and the model the earlier one, which can
  reorder the list.
- IndefiniteStore.IndefiniteTasks.Remove: `_IndefiniteTask` has no `__eq__` either
  (`cleany/tasks.py:100-112`), so Python removes by identity while the model removes the first
  equal value. `cleany/__init__.py` never calls this method.
- Object aliasing: after `reset`, the entry that `increment` returned shows the new values in
  Python. The model's entries are values, and only the label text reads that alias.
- Slice assignment `store[a:b] = ...` and `extend` with a general iterable: `SetItem` takes one
  index, and `Extend` takes a sequence.
- `_Users.update(*args, **kwargs)`: modelled as one sequence of key/value pairs applied in order.
  This covers a mapping, a list of pairs and keyword arguments.
- Dates.Parse: accepts only a four-digit year and two-digit month and day. `strptime` also
  accepts one-digit months and days such as `2024-1-5`. `str()` never writes those, so every
  stored date round-trips.
- Digits.ParseInt: models the ASCII digits of `int()`. Python's `int()` also accepts the other
  Unicode decimal digits. The digit limit is CPython's default of 4300; a program or the
  environment can change it, and Python releases before the September 2022 security releases
  have none.
- Ledger.Users.All: returns the pairs as a sequence taken at the call. Python's `items()` is a
  live view that follows later changes to the ledger. Nothing in `cleany` calls `all()`.
- Rotation.RoundRobinClosure: requires distinct names in the rotation list. With a repeated name,
  `users.index` finds the first occurrence, and the rotation can cycle early.
- Manager.SeedAssigned: on a failure it states the error and that the store is still valid and
  sorted. It does not say which tasks were already inserted.
- Manager.TaskManager.Start: on a failure it states the error only. The files written before
  the failure, by the insorts of a seeding that stopped partway, are not part of its result.
- Manager.TaskManager.AssignTask: gives the exact new list only for a sorted store. For any store
  it gives the added task as a multiset.
- Manager.TaskManager.CompleteTask: gives the exact new list only for a sorted store. For any
  store it gives the swapped task as a multiset.

## Findings

| source | as written | input that shows it | evidently intended | confidence | as-written member | corrected member |
|---|---|---|---|---|---|---|
| cleany/__init__.py:129 | `_assign_task` calls `tasks.new_task(new_user, room_name, task_name, due_date)` with four arguments. `new_task` (`cleany/tasks.py:26`) takes five, so every assignment that gets this far raises TypeError and inserts nothing. First-run seeding (line 144) therefore fails on the first chore, and completing a chore (lines 180-181) removes it without handing it on. | room `kitchen` with users `["ana", "ben"]`, chore `dishes` with period `"1d"`, current holder `ana` | pass the chore's period text as the fifth argument, so `ben` gets `dishes` due the next day | not executed | Manager.AssignTaskAsWritten, Manager.AssignTaskAsWrittenFails | Manager.Assign, Manager.TaskManager.AssignTask |
