# Elysium bot core in Dafny

This project models the event-log bookkeeping of the Elysium Discord bot and proves properties of that model.

Moderators post event reports as embeds titled "Отчет о проведенном ивенте". `LogsCog` scans a channel's history for a date or a date range and turns each report into an event record:
- who ran the event;
- how many points it was worth;
- the event's name;
- when it was posted.

Each event gets a category from the category index. The events can be filtered by user or by category and are sorted by time. They are then written out either as a summary ranking users by total points ("makser") or as one line per event. A "night_log" adds a bonus for the part of each event that falls between 03:00 and 07:00: at multiplier 2.0 for users on the blum list and 1.5 for everyone else.

Three further cogs keep the bot's state in JSON files:
- `CategoryCog` keeps the category index;
- `BlumCog` keeps the blum list;
- `PointCog` keeps a ledger of manually granted points.

## Conventions

Instants are whole milliseconds of Moscow wall-clock time since 1970-01-01 00:00, at the fixed offset UTC+3. Days are numbered as in Python's `date.toordinal`.

The bot computes the night bonus with floats and Python's `round` (half to even). The model uses integer round-half-to-even. The two agree: the overlap in minutes is a multiple of 1/60000 and the bonus a multiple of 1/2, and floats hold these values exactly at every tie.

Python's stable `sort`/`sorted` is `Sorting.SortBy`, a stable insertion sort. `reverse=True` is the same sort with the order flipped; Python keeps equal keys in their original order there as well.

Python built-ins are modelled in `Text` and `Lists`:
- the string built-ins `str.split()`, `split(sep)`, `strip`, `join`, `replace(x, '')`, `lower`, `in`, `int()` and `str()` (in `Text`);
- `list.remove` (in `Lists`).

`strptime` is modelled by its regular expressions:
- `%d` is 1-9 or 01-31;
- `%m` is 1-9 or 01-12;
- `%Y` is four digits;
- `%H` is one digit or 00-23;
- `%M` is one digit or 00-59;
- a space in the format matches a run of whitespace.

Each JSON file is a field of its cog, `saved: Option<…>`, where `None` means the file is missing or is not valid JSON. Most commands reload the file first and write it back only when they change something. There are two exceptions:
- `/blum clear` does not reload, and it saves even a list that was already empty (cogs/blum_cog.py:60-62);
- `remove_point_entry` always saves, even when no entry has the id, so it creates a missing file (cogs/point_cog.py:126-129).

## Modules

- `Text`, `Lists`, `Sorting`, `Calendar`, `Wrappers`: the Python and calendar behaviour the cogs rely on.
- `DateRange`: `parse_date_range`.
- `Reports`: reading the report embeds in `_get_events_in_range`.
- `EventScan`: the rest of `_get_events_in_range`, which covers the window, the filters, the categories and the sort.
- `NightBonus`, `LogReport`: `generate_log_file`.
- `Categories`: `CategoryCog`.
- `Blum`: `BlumCog`.
- `PointLedger`: `PointCog` and its modal and menu.

## Behaviour as the code has it

Some of the code's behaviour is easy to misread; the model follows the code in each case:
- `parse_date_range` makes the end inclusive: the last second of the last day, not the next midnight (cogs/logs_cog.py:137, 140). Nothing checks that the first date comes before the second.
- The night window is 03:00-07:00 for everybody. Blum membership changes only the multiplier (cogs/logs_cog.py:263-277).
- A night log lists every event, bonus or not (cogs/logs_cog.py:253-284).
- The code has no `/point edit` command, although the help text lists one (cogs/help_cog.py:47). No such command is modelled.
- `LogsCog` never reads `manual_points.json`.

## Model

| member | source | states |
|---|---|---|
| DateRange.ParseDayMonthYear | cogs/logs_cog.py:127 | `strptime(…, '%d.%m.%Y')` accepts only dates that exist in the calendar |
| DateRange.ParseDate | cogs/logs_cog.py:124-131 | a date that parses lies in the given year and exists |
| DateRange.ParseDateRange | cogs/logs_cog.py:120-142 | a single date resolves to a span one second shorter than a day; a `BadDate` error names one of the '-' pieces of the input |
| DateRange.SingleDateResolves | cogs/logs_cog.py:138-140 | "DD.MM" resolves to that day's local midnight and its last second (86399 s later) |
| DateRange.RangeResolves | cogs/logs_cog.py:133-137 | "A-B" resolves to the midnight of A and the last second of B; start < end exactly when B is not earlier in the year than A |
| DateRange.DateErrors | cogs/logs_cog.py:133-142 | a `BadDate` error names a text that does not parse: the whole input when it has no '-', otherwise a piece, and the second piece only when the first one parses |
| DateRange.TooManyDashes | cogs/logs_cog.py:133-134 | two or more '-' give the unpacking error exactly, with one piece more than there are dashes |
| DateRange.RangeNeedsBothDates | cogs/logs_cog.py:133-142 | a resolved range comes from one date without '-', or from exactly one '-' between two dates that both parse |
| DateRange.ResolvedBoundsAreDayBoundaries | cogs/logs_cog.py:120-142 | any resolved range starts on a local midnight and ends one second before one |
| DateRange.LeapDay | cogs/logs_cog.py:127-131 | "29.02" resolves exactly in leap years; otherwise the error names the text typed |
| Reports.ParseDescription | cogs/logs_cog.py:180-191 | no id means the nickname "N/A"; the nickname is never empty and holds no backtick |
| Reports.MentionDescription | cogs/logs_cog.py:181-189 | "<@id>" and then nickname words read back as that id and the words joined by single spaces, or "N/A" when no word follows |
| Reports.PointsFromLastField | cogs/logs_cog.py:194-201 | the last "получено" field with a parsable first word decides the points |
| Reports.PointsDefault | cogs/logs_cog.py:177-201 | without such a field the points stay 0 |
| Reports.EventNameFromLastField | cogs/logs_cog.py:202-203 | the last "ивент" field that is not a points field decides the event name |
| Reports.EventNameDefault | cogs/logs_cog.py:177-203 | without one the name is "Без названия" |
| Reports.PointsValueReads | cogs/logs_cog.py:199 | a value that starts with a number and then whitespace reads as that number |
| Reports.ReportOf | cogs/logs_cog.py:172-209 | an embed gives an event only when its title is the report title and its points are not 0; the event's time is the message's creation time |
| Reports.ReadFields | cogs/logs_cog.py:194-203 | the field loop computes what `Points` and `EventName` specify |
| Reports.ReadReport | cogs/logs_cog.py:170-211 | builds the record `ReportOf` specifies |
| Reports.AtMostOnePerReport | cogs/logs_cog.py:170-211 | each embed with the report title gives at most one event; other embeds give none |
| Reports.ReportsOf | cogs/logs_cog.py:162-211 | every event has non-zero points and comes from a scanned message with its timestamp |
| Reports.CollectReports | cogs/logs_cog.py:158-211 | the nested message/embed loops compute `ReportsOf` |
| EventScan.FirstMatch | cogs/logs_cog.py:224-227 | finds the first category whose list names the event, ignoring case, and none when no list does |
| EventScan.FirstListingWins | cogs/logs_cog.py:222-227 | the earliest category that lists the event is its category |
| EventScan.UnlistedIsOther | cogs/logs_cog.py:223 | an event no category lists is "Other" |
| EventScan.CategoryIgnoresCase | cogs/logs_cog.py:225 | names equal up to case fall into the same category |
| EventScan.AssignCategory | cogs/logs_cog.py:223-227 | the inner loop with `break` computes `CategoryOf` |
| EventScan.Categorize | cogs/logs_cog.py:222-227 | every event gets its category, and nothing else about it changes |
| EventScan.OfUser | cogs/logs_cog.py:216-217 | keeps exactly the events of that user |
| EventScan.InCategory | cogs/logs_cog.py:229-230 | keeps exactly the events of that category |
| EventScan.Window | cogs/logs_cog.py:162 | keeps exactly the messages strictly between the two instants |
| EventScan.Earlier | cogs/logs_cog.py:232 | ordering by timestamp is a total preorder |
| EventScan.GetEventsInRange | cogs/logs_cog.py:153-232 | computes `EventsInRange`: the date error, or the sorted selected events |
| EventScan.SelectedEvents | cogs/logs_cog.py:162-230 | every selected event has points, lies in the window, carries its category and passes both filters |
| EventScan.SelectedComplete | cogs/logs_cog.py:162-230 | every report in the window that passes both filters is selected |
| EventScan.ScanOrdered | cogs/logs_cog.py:232 | the result is in time order, is a permutation of the selection, and keeps the read order among equal timestamps |
| NightBonus.RoundHalfEven | cogs/logs_cog.py:272-277 | `round(n/d)`: the nearest integer, the even one at a tie |
| NightBonus.RoundMonotone | cogs/logs_cog.py:272 | rounding keeps order |
| NightBonus.RoundExact | cogs/logs_cog.py:272 | rounding an exact multiple gives the quotient |
| NightBonus.DayStart | cogs/logs_cog.py:264-265 | the local midnight of the day an instant falls on |
| NightBonus.NightOverlap | cogs/logs_cog.py:255-271 | the overlap with 03:00-07:00 is 0 to 4 hours and never longer than the event |
| NightBonus.NightMinutes | cogs/logs_cog.py:270-272 | the bonus minutes are 0 to 240 and never more than the event's points |
| NightBonus.BonusBounds | cogs/logs_cog.py:274-277 | at 2.0 the bonus equals the minutes; at 1.5 it is within one half of half of them, and never more than at 2.0 |
| NightBonus.BonusTies | cogs/logs_cog.py:277 | 1 minute at 1.5 earns 0, 3 earn 2, 5 earn 2 |
| NightBonus.NightMinutesMonotone | cogs/logs_cog.py:255-272 | a longer event ending at the same instant earns at least as many night minutes |
| NightBonus.NightExamples | cogs/logs_cog.py:255-272 | worked cases: 120 min ending 04:00 gives 60 minutes, 600 min ending 08:00 gives 240, 60 min ending 12:00 gives 0, 90 min ending 03:30 gives 30 |
| LogReport.AddPointsSpec | cogs/logs_cog.py:242-246 | `user_points[u] += p` adds p to u's total only, keeps each user once, and adds p to the grand total |
| LogReport.UserTotalsSpec | cogs/logs_cog.py:241-246 | the summary holds each user of the events once, with the sum of their points; the totals add up to all points |
| LogReport.RankingSpec | cogs/logs_cog.py:248-251 | the ranking lists exactly the users of the events, by falling total, each with their sum |
| LogReport.RankLines | cogs/logs_cog.py:250-251 | lines are numbered from 1 in ranking order |
| LogReport.ExtraSpec | cogs/logs_cog.py:263-277 | bonuses occur only in night logs and only for positive night minutes; 2.0 exactly when `user_id in blum_list`, an absent id included |
| LogReport.NoExtrasOutsideNight | cogs/logs_cog.py:263 | outside night logs the total is the sum of the points |
| LogReport.BlumNeverLowers | cogs/logs_cog.py:275-277 | the list never lowers the bonus sum |
| LogReport.BlumUnread | cogs/logs_cog.py:263-277 | a log with no event that earns night minutes is the same whatever the blum list holds |
| LogReport.LogOfFile | cogs/logs_cog.py:273-277 | from the loaded file: `TypeError` exactly when the file is not a list or a dictionary and some event earns night minutes; otherwise the log for what the list matches |
| LogReport.WriteSummary | cogs/logs_cog.py:239-251 | the summary loops compute `MakserLog` |
| LogReport.WriteEventLines | cogs/logs_cog.py:254-284 | one line per event in order; total = points + night bonuses |
| LogReport.WriteEventLine | cogs/logs_cog.py:255-282 | one event's line (start, end, user, points, optional bonus, name, category) and the bonus it adds |
| LogReport.GenerateLogFile | cogs/logs_cog.py:234-290 | computes `GeneratedLog`, named "log_<type>_<dates>.txt" |
| LogReport.EveryEventListed | cogs/logs_cog.py:254-284 | a non-summary log has one line per event, whether or not it earns a bonus |
| Categories.Find | cogs/category_cog.py:29 | the `name in self.categories` test of every command: the position of the key, or none exactly when it is absent |
| Categories.CreateSpec | cogs/category_cog.py:27-34 | succeeds exactly for a new name, appends it with no events, leaves the rest alone |
| Categories.DeleteSpec | cogs/category_cog.py:38-45 | succeeds exactly for a present name; afterwards it is gone and every other category remains |
| Categories.AddSpec | cogs/category_cog.py:49-60 | succeeds exactly for an existing category without the event; appends to that list only; a list without repeats keeps none |
| Categories.RemoveSpec | cogs/category_cog.py:64-75 | succeeds exactly when the category holds the event; that list loses its first occurrence of the event and keeps the other events in order; the other categories stay |
| Categories.AddThenRemove | cogs/category_cog.py:49-75 | removing an event just added gives the index back |
| Categories.EmptyRendering | cogs/category_cog.py:86 | a field reads "Пусто" exactly when the category is empty |
| Categories.CategoryCog.Load | cogs/category_cog.py:12-17 | a missing file or one that is not valid JSON loads as the empty map |
| Categories.CategoryCog.Create | cogs/category_cog.py:27-34 | reloads, then does `CreateIn`; saves only on success |
| Categories.CategoryCog.Delete | cogs/category_cog.py:38-45 | reloads, then does `DeleteIn`; saves only on success |
| Categories.CategoryCog.Add | cogs/category_cog.py:49-60 | reloads, then does `AddIn`; saves only on success |
| Categories.CategoryCog.Remove | cogs/category_cog.py:64-75 | reloads, then does `RemoveIn`; saves only on success |
| Categories.CategoryCog.List | cogs/category_cog.py:78-89 | no fields for an empty index, else one field per category in stored order |
| Blum.IntsOf | cogs/blum_cog.py:16 | every element converts by `int()`, or the first one that fails decides the exception; a string padded with U+001C-U+001F fails with `ValueError` |
| Blum.LoadIds | cogs/blum_cog.py:12-18 | a missing file loads as empty |
| Blum.LoadSaved | cogs/blum_cog.py:12-22 | a saved list loads back unchanged |
| Blum.WordRaises | cogs/blum_cog.py:16-17 | a non-numeric string raises the uncaught `ValueError` |
| Blum.NullFirstEmpties | cogs/blum_cog.py:16-18 | a `TypeError` met first gives the empty list |
| Blum.NumberDocumentEmpties | cogs/blum_cog.py:16-18 | a document that is not iterable loads as empty |
| Blum.Matched | cogs/logs_cog.py:275 | a list matches `user_id` exactly when one of its elements equals it in Python: a number, a boolean as 0 or 1, `null` as `None` |
| Blum.LogsSeeSaved | cogs/logs_cog.py:104-113 | `LogsCog`, which reads the file raw, sees exactly the ids `BlumCog` saved |
| Blum.NullMatchesNoId | cogs/logs_cog.py:275 | a `null` in the list matches an event whose eventer has no id |
| Blum.AddSpec | cogs/blum_cog.py:28-35 | an id already there changes nothing; otherwise it is appended; no repeats are introduced |
| Blum.RemoveSpec | cogs/blum_cog.py:39-46 | an absent id changes nothing; otherwise it is gone, the others stay in their order, and there are no repeats |
| Blum.RemoveKeepsOrder | cogs/blum_cog.py:44 | with or without repeats, `remove` cuts out the first occurrence of the id and keeps everything before and after it in order |
| Blum.AddThenRemove | cogs/blum_cog.py:28-46 | removing an id just added restores the list |
| Blum.DescriptionLines | cogs/blum_cog.py:55 | the description has one "- <@id>" line per id, in stored order |
| Blum.BlumCog.constructor | cogs/blum_cog.py:7-10 | the cog starts with the loaded list |
| Blum.BlumCog.Add | cogs/blum_cog.py:28-35 | reloads (stops if that raises), then does `AddTo`; saves only when added |
| Blum.BlumCog.Remove | cogs/blum_cog.py:39-46 | reloads (stops if that raises), then does `RemoveFrom`; saves only when removed |
| Blum.BlumCog.Clear | cogs/blum_cog.py:60-63 | empties and saves the list without reloading |
| Blum.BlumCog.List | cogs/blum_cog.py:50-57 | reloads; the "empty" reply exactly when the list is empty, else the description |
| PointLedger.ParseClock | cogs/point_cog.py:45 | `%H:%M` gives an hour below 24 and a minute below 60 |
| PointLedger.ParseEndTime | cogs/point_cog.py:45 | an accepted end time is a valid date and clock reading |
| PointLedger.ParseShownEndTime | cogs/point_cog.py:45 | an end time written in the placeholder's shape ("23:59 28.09.<year>") reads back as itself |
| PointLedger.EndTimeNeedsClockAndGap | cogs/point_cog.py:45 | text that starts with whitespace, or contains none, is refused |
| PointLedger.NoHour24 | cogs/point_cog.py:45 | "24:00" is refused |
| PointLedger.IsoOrder | cogs/point_cog.py:145 | comparing ISO end times as strings compares the clock readings |
| PointLedger.Validate | cogs/point_cog.py:37-53 | an entry exactly when id, points (both by `int()`, which refuses U+001C-U+001F padding) and end time all parse; it carries the fresh id and the parsed values |
| PointLedger.ValidSubmission | cogs/point_cog.py:40-53 | integer id and points and a well-formed end time give exactly that entry |
| PointLedger.WithoutId | cogs/point_cog.py:128 | keeps exactly the entries with another id |
| PointLedger.WithoutIdAppend | cogs/point_cog.py:128 | the filter keeps the remaining entries in order |
| PointLedger.WithoutUnknownId | cogs/point_cog.py:126-129 | an unknown id leaves the ledger unchanged |
| PointLedger.WithoutIdIdempotent | cogs/point_cog.py:126-129 | removing twice removes nothing more |
| PointLedger.AddThenRemove | cogs/point_cog.py:121-129 | removing a freshly added entry restores the ledger |
| PointLedger.Newest | cogs/point_cog.py:145 | newest-first order is a total preorder |
| PointLedger.MenuShape | cogs/point_cog.py:71-88 | disabled with one placeholder exactly for an empty ledger, else min(25, n) options |
| PointLedger.MenuNewest | cogs/point_cog.py:76 | the options come newest first, and no entry left out is newer than one shown |
| PointLedger.ByUserThenTime | cogs/point_cog.py:158 | the (user, time) order is a total preorder |
| PointLedger.GroupsOfSpec | cogs/point_cog.py:162-177 | every entry lands in exactly one field, in order; fields are non-empty, hold one user each, and neighbours differ |
| PointLedger.GroupsAscending | cogs/point_cog.py:158-177 | over entries sorted by user, user ids rise strictly from field to field |
| PointLedger.ListingSpec | cogs/point_cog.py:153-177 | the listing shows every stored entry once, one field per user by ascending id, each field in time order |
| PointLedger.PointCog.Load | cogs/point_cog.py:110-115 | a missing ledger or one that is not valid JSON loads as empty |
| PointLedger.PointCog.AddPointEntry | cogs/point_cog.py:121-124 | reloads, appends, saves |
| PointLedger.PointCog.RemovePointEntry | cogs/point_cog.py:126-129 | reloads, drops the id, saves |
| PointLedger.PointCog.Submit | cogs/point_cog.py:37-63 | a submission that `Validate` accepts is appended; any other, including one whose id or points are padded with U+001C-U+001F, leaves the file untouched |
| PointLedger.PointCog.RemoveMenu | cogs/point_cog.py:140-146 | builds `MenuOf` of the stored ledger |
| PointLedger.PointCog.ListPoints | cogs/point_cog.py:152-177 | the loop with the current-user accumulator builds `ListingOf` |
| Text.SplitJoinWords | cogs/logs_cog.py:189 | `split()` gives back the words that `' '.join` glued together |
| Calendar.YearLength | cogs/logs_cog.py:127 | the calendar that `strptime` checks dates against has 365-day years and 366-day leap years |
| Text.Strip | cogs/logs_cog.py:127 | `strip()`: nothing left exactly for blank text, the ends are not whitespace, no new characters |
| Text.Split | cogs/logs_cog.py:181 | `split()`: non-empty words without whitespace; none exactly for blank text |
| Text.SplitOnPieces | cogs/logs_cog.py:134 | `split('-')` gives one more piece than separators, none holding one |
| Text.ParseShowInt | cogs/logs_cog.py:186 | `int(str(n)) == n` |
| Text.ParseInt | cogs/point_cog.py:40-41 | `int(text)` fails on blank text and on text holding U+001C-U+001F, which `str.isspace` accepts but `int()` does not strip |
| Text.SeparatorRefused | cogs/blum_cog.py:16 | `int("\x1c5")` and `int("5\x1f")` raise `ValueError`; `int(" 5\n")` and `int("\xa05\u3000")` give 5 |
| Sorting.SortByIsSorted | cogs/logs_cog.py:232 | the stable sort's result is ordered |
| Sorting.SortByIsStable | cogs/logs_cog.py:232 | elements with equal keys keep their original order |
| Lists.RemoveFirstSplits | cogs/blum_cog.py:44 | `list.remove(x)` is the list with its first `x` cut out, the rest in order |
| Lists.RemoveFirstOfDistinct | cogs/blum_cog.py:44 | `list.remove` on a list without repeats removes exactly that element |

## Left out

- Discord I/O is not modelled. That covers sending replies, modals, select menus, embeds and attachments, `channel.history`, the channel lookup with its early return, and `print` diagnostics. The history is a parameter: a sequence of messages with their creation time and embeds.
- The exact text of replies and log lines (Russian wording, `strftime` layout, float formatting) is not modelled. Log lines, menu options and listing fields are structured values.
- Clock, time zone and randomness are not modelled:
  - the current year is a parameter;
  - the fresh `uuid4` entry id is a parameter;
  - Moscow time is the fixed offset +03:00, while pytz gives other offsets before 2014.
- JSON files are in-memory values. Five cases are not covered:
  - a file that exists but cannot be read: the code catches only `FileNotFoundError` and `json.JSONDecodeError` (and `TypeError` in `BlumCog`), so `PermissionError`, `IsADirectoryError` or a `UnicodeDecodeError` on bytes that are not UTF-8 propagates;
  - a file that holds the wrong shape of JSON (the ledger or the index not a list or a map);
  - floats in the blum list;
  - a write that fails;
  - a dictionary with duplicate keys.
- `LogsCog` loads the blum list once, at construction (cogs/logs_cog.py:104). The category index is read afresh on every scan (cogs/logs_cog.py:219), which is what the `index` parameter of `EventScan.EventsInRange` stands for. The blum list is a parameter of the log (`blum`), and `Blum.LogsView` and `LogReport.LogOfFile` relate it to the file. That the blum list goes stale after `/blum add` is not modelled.
- `Blum.BlumCog.constructor` requires that the file loads without `ValueError`. When the load raises, the cog is never created.
- Unicode digits in `int()` and `strptime` are not modelled: only ASCII digits are.
- `Text.ParseInt` accepts numbers of any length, while Python 3.11 and later refuse to convert strings of more than 4300 digits with `ValueError`. Discord's limits on embed fields and modal inputs keep such text out of the reports and the submissions, but no limit bounds the strings of `blum_list.json`, which `int()` also converts (cogs/blum_cog.py:16).
- `Text.LowerChar`: `str.lower()` is modelled only on these capitals: A-Z; U+00C0-U+00DE except U+00D7; U+0391-U+03A9 except U+03A2; U+0400-U+042F. Python's final-sigma rule (Σ at the end of a word lowers to ς), the Greek capitals with tonos (U+0386-U+038F), Cyrillic U+0460-U+04FF and all other scripts are not modelled. Category matching compares lowered names (cogs/logs_cog.py:225), so names with those letters may be matched differently.
- The permission check (`is_admin`), `main.py`, `help_cog.py` and `/clear` are outside the core.
- An event with huge points makes `timedelta(minutes=points)`, or its subtraction from the message time, raise `OverflowError` in `generate_log_file` (cogs/logs_cog.py:256). The model computes the start instant with unbounded integers and does not raise.
- The `Exception` catch-all of `on_submit` and any other unexpected exception are not modelled.
