# Rotation-Graph trading scripts, modelled in Dafny

This project models four small pieces of a personal trading-data workflow written against the Fyers brokerage API. It proves properties of each model.

- **Index-description matcher** (`test.py`), in `sector_match.dfy` (module `SectorMatch`).
  - `check_match` upper-cases a description from the broker's symbol master, collapses double spaces and strips the ends.
  - It then expands seven broker abbreviations, in a fixed order.
  - It accepts the description when it equals one of 21 sector names, either exactly or once every `&` reads `AND` on both sides.
  - The script keeps the rows whose symbol ends in `-INDEX` and whose description matches.
  - The Python string operations these steps use are in `strings.dfy` (module `Strings`), restricted to ASCII: `upper()`, `strip()`, `replace()`, the `in` test and `endswith`.
- **Epoch conversion** (`utils/helpers.py`), in `epoch_time.dfy` (module `EpochTime`).
  - `epoch_to_utc` and `epoch_to_date` turn POSIX seconds into a date and time of the proleptic Gregorian calendar, with no leap seconds.
  - The model writes this as integer civil-date arithmetic: years and months counted from 1970, then division by 86400, 3600 and 60.
  - Formatting is zero-padded `YYYY-MM-DD HH:MM:SS`. A parser reads the string back, and the round trips go through it.
- **OAuth login helper** (`auth/auth_code.py`), in `oauth_flow.dfy` (module `OAuthFlow`).
  - The class `Settings` holds the two slots the helper writes, `auth_code` and `access_token`.
  - `HandleGet` is the callback handler: it accepts or rejects the redirect's query.
  - `AwaitAuthCode` is the wait for a code, serving the callback requests in the order they arrive.
  - `GenerateAccessToken` is the token step. It does nothing when a token is held. Otherwise it runs the wait, then the exchange, and publishes the response's `access_token`.
  - Each method is proved equal to a function of the old slots: `Callback`, `Await` or `Flow`. The lemmas are about those functions.
- **Sector search** (`test1.py`), in `sector_search.dfy` (module `SectorSearch`).
  - The nested loop over the sector hierarchy finds the code of the last sector named `Finance`. It also finds the first `Housing` code of the last Finance sector that has one.
  - The stocks fetch happens only when both codes are truthy.
  - Each fetch helper keeps a payload's `data` only when its `code` is 200.
- `wrappers.dfy` (module `Wrappers`) holds `Option`, for Python's `None`, and Python truthiness of an optional string.

The HTTP fetches and the token exchange are parameters of the model.

## Model

| member | source | states |
|---|---|---|
| Wrappers.Option.GetOr | test1.py:53 | `d.get(k, default)`: the value when present, otherwise the default |
| Wrappers.Truthy | auth/auth_code.py:82 | an optional string is truthy iff it is present and non-empty, as for `settings.access_token` and for the codes at test1.py:68 |
| Wrappers.TruthyIff | test1.py:68 | the only falsy optional strings are `None` and the empty string |
| Strings.Upper | test.py:54 | `upper()` on ASCII text: the same length, with no lower-case letter left; each character is mapped as `UpperChar` says |
| Strings.UpperChar | test.py:54 | ASCII upper-casing: the result is never lower-case, lower-case letters move by 32, every other character is kept |
| Strings.UpperIdempotent | test.py:54 | upper-casing twice is upper-casing once |
| Strings.StripLeft | test.py:54 | `lstrip`: the result is a suffix, what was dropped is all whitespace, and the result is empty or starts with a non-space |
| Strings.StripRight | test.py:54 | `rstrip`: the result is a prefix, what was dropped is all whitespace, and the result is empty or ends with a non-space |
| Strings.Strip | test.py:54 | `strip()`: never longer than its input, with no whitespace at either end; `StripOfPadded` and `StripSplit` say exactly which characters remain |
| Strings.StripOfPadded | test.py:54 | `strip` of whitespace + trimmed core + whitespace is exactly the core |
| Strings.StripSplit | test.py:54 | every string is whitespace, then its stripped form (trimmed), then whitespace |
| Strings.StripIgnoresPadding | test.py:54 | adding whitespace at either end does not change `strip` |
| Strings.Contains | test.py:57-63 | the `in` test; `ContainsIffOccurs` proves it equal to an occurrence at some index |
| Strings.ContainsIffOccurs | test.py:57-63 | the `in` test holds iff the pattern occurs at some index |
| Strings.Replace | test.py:54-69 | `str.replace`, scanning left to right and replacing non-overlapping occurrences; its properties are the `Replace…` lemmas below |
| Strings.EndsWith | test.py:23 | `str.endswith`: the suffix is no longer than the string and equals its last characters |
| Strings.EndsWithIff | test.py:23 | `endswith` holds exactly when the string is some prefix followed by the suffix |
| Strings.IsSpace | test.py:54 | the characters `strip()` removes are exactly tab, line feed, vertical tab, form feed, carriage return, 0x1c to 0x1f and space |
| Strings.ReplaceShorter | test.py:54 | a replacement no longer than its pattern never lengthens the string |
| Strings.ReplaceAbsent | test.py:57-63 | `replace` of a pattern that does not occur changes nothing |
| Strings.ReplaceChars | test.py:54 | `replace` output is made only of characters of the input and of the replacement |
| Strings.ReplaceLonger | test.py:69 | a replacement at least as long as the pattern never shortens the string |
| Strings.ReplaceAppend | test.py:54 | `replace` distributes over concatenation when no occurrence can straddle the join |
| Strings.ReplaceSkip | test.py:57-63 | characters before the first possible occurrence are copied unchanged |
| Strings.ReplaceOnce | test.py:57-69 | a single occurrence in text that cannot start another becomes the replacement, with the rest kept |
| SectorMatch.Collapse | test.py:54 | `replace("  ", " ")` never lengthens the description and leaves one with no two adjacent spaces unchanged |
| SectorMatch.Clean | test.py:54 | the first line of `check_match`: upper-case, one double-space pass, strip |
| SectorMatch.ExpandOne | test.py:57-63 | one guarded abbreviation expansion; `ExpandOneIsReplace` proves the guard redundant |
| SectorMatch.ExpandAll | test.py:57-63 | the seven expansions applied in their source order |
| SectorMatch.AbbreviationsNonEmpty | test.py:57-63 | every abbreviation is a non-empty pattern |
| SectorMatch.Normalize | test.py:54-63 | the description `check_match` compares: cleaned, then expanded |
| SectorMatch.Matches | test.py:53-71 | `check_match` on a string: some target agrees with the normalised description |
| SectorMatch.CheckMatch | test.py:53-71 | `check_match` on a cell, a missing cell read as "nan" |
| SectorMatch.AmpToAnd | test.py:69 | `replace("&", "AND")` never shortens the string and leaves one without `&` unchanged |
| SectorMatch.SameSector | test.py:69 | the test against one target holds exactly when both sides agree once `&` reads `AND`; plain equality adds no case of its own |
| SectorMatch.CellText | test.py:54 | `str(row_desc)`: the text of a present cell, and "nan" for a missing one |
| SectorMatch.AnyTarget | test.py:67-71 | the early-return loop is true iff some target equals the description, or agrees with it once `&` reads `AND` on both sides |
| SectorMatch.IsIndexRow | test.py:23 | `str.endswith('-INDEX', na=False)`: a row without a symbol is not an index row |
| SectorMatch.IsMySector | test.py:74 | the `IsMySector` mask: `check_match` of the row's description |
| SectorMatch.IndexRows | test.py:23 | the index rows, in file order |
| SectorMatch.FinalList | test.py:74-75 | `final_list`: the index rows whose mask is true; `FinalListIsSelection` characterises it |
| SectorMatch.Filter | test.py:75 | a boolean-mask selection keeps only rows that satisfy the mask, keeps every such row, and never grows |
| SectorMatch.FilterAppend | test.py:75 | selecting from a concatenation is concatenating the selections |
| SectorMatch.FilterTwice | test.py:23-75 | selecting by one mask and then another is selecting once by both |
| SectorMatch.FinalListIsSelection | test.py:23-75 | `final_list` is the one-pass, order-preserving selection of rows that end in `-INDEX` and match; it holds exactly those rows, and none without a symbol |
| SectorMatch.FinalListAppend | test.py:23-75 | the final list of two batches of rows is the two final lists in order |
| SectorMatch.CollapseSpaces | test.py:54 | one `replace("  ", " ")` pass turns n spaces into ceil(n/2) spaces |
| SectorMatch.CollapseNotIdempotent | test.py:54 | three spaces become two, and a second pass would make one: the pass is not idempotent |
| SectorMatch.CollapseTrimmed | test.py:54 | collapsing keeps a trimmed string trimmed |
| SectorMatch.CollapseOfSpace | test.py:54 | collapsing whitespace gives whitespace |
| SectorMatch.CollapsePadded | test.py:54 | for a non-empty trimmed core, collapsing whitespace + core + whitespace collapses each part separately |
| SectorMatch.StripCollapseCommute | test.py:54 | stripping after collapsing equals collapsing after stripping |
| SectorMatch.CleanIgnoresPadding | test.py:54 | leading and trailing whitespace never change the cleaned description |
| SectorMatch.MatchIgnoresPadding | test.py:54 | leading and trailing whitespace never change whether a description matches |
| SectorMatch.MatchIgnoresCase | test.py:54 | a description matches iff its upper-cased form matches |
| SectorMatch.ExpandOneIsReplace | test.py:57-63 | each `if short in desc` guard is redundant: the guarded expansion equals an unguarded `replace` |
| SectorMatch.ExpandAllAbsent | test.py:57-63 | a description holding none of the abbreviations comes out of the expansions unchanged |
| SectorMatch.CleanFixed | test.py:54 | an upper-case, single-spaced, trimmed description is unchanged by the first line |
| SectorMatch.CanonicalIsFixed | test.py:54-63 | a canonical description is a fixed point of the whole normalisation |
| SectorMatch.NoAbbreviationByPairs | test.py:57-63 | a description lacking the letter pairs SR, PV, XB, MS and ML contains no abbreviation |
| SectorMatch.PlainIsCanonical | test.py:54-63 | the per-character check implies canonical form |
| SectorMatch.TargetsCanonical | test.py:27-49 | every target is upper-case, single-spaced, trimmed and free of abbreviations |
| SectorMatch.TargetsMatchThemselves | test.py:27-71 | every entry of `target_sectors` matches itself |
| SectorMatch.TargetsLength | test.py:27-49 | every target has at least 8 characters |
| SectorMatch.AnyTargetMember | test.py:67-71 | the search succeeds as soon as one listed target agrees |
| SectorMatch.ShorterThanAll | test.py:67-71 | a description without `&` that is shorter than every target agrees with none of them |
| SectorMatch.AmpToAndCounts | test.py:69 | reading each `&` as `AND` adds two characters and one `D` per `&` |
| SectorMatch.AmpFormsDiffer | test.py:69 | a string under 8 characters never agrees, after `&` reads `AND`, with a string longer than 7 plus twice its number of `D`s |
| SectorMatch.DOnlyAtFew | test.py:27-49 | a string with at most one `D` (at a given index) and at least 10 characters, or with no `D` and at least 8, is long for its `D`s |
| SectorMatch.TargetsFewDAt | test.py:27-49 | every target is long for its `D`s: the indices of the six `D`s among the targets are listed and checked |
| SectorMatch.ShortAgreesWithNone | test.py:67-71 | a description under 8 characters agrees with no target that is long for its `D`s, even through the `&`-to-`AND` comparison |
| SectorMatch.TooShortToMatch | test.py:65-71 | only whole equality counts: a canonical description shorter than every target is rejected, whatever `&`s it holds |
| SectorMatch.NormalizeByFirst | test.py:57-63 | when the first expansion alone yields a canonical description, that is the normal form |
| SectorMatch.NiftyBankMatches | test.py:54 | "Nifty Bank" matches: case is ignored |
| SectorMatch.ConsumerDurablesMatches | test.py:57 | "NIFTY CONSR DURBL" normalises to "NIFTY CONSUMER DURABLES" and matches |
| SectorMatch.OilAndGasMatches | test.py:69 | "NIFTY OIL & GAS" matches "NIFTY OIL AND GAS" through the `&`-to-`AND` comparison |
| SectorMatch.PrefixDoesNotMatch | test.py:65-71 | the proper prefix "NIFTY" does not match, although the comment above the loop speaks of prefixes |
| SectorMatch.RejectedThroughUpper | test.py:54-71 | a description whose upper-case form is canonical and under 8 characters is rejected |
| SectorMatch.MissingDescriptionDoesNotMatch | test.py:54 | a missing description is compared as `str(nan)` upper-cased, "NAN", and is never kept |
| EpochTime.IsLeap | utils/helpers.py:7 | the Gregorian rule: a year not divisible by 4 is common, one divisible by 400 is leap |
| EpochTime.DaysInMonth | utils/helpers.py:7 | a month has 28 to 31 days, and 29 exactly for February of a leap year |
| EpochTime.DaysFromCivil | utils/helpers.py:7 | the day count of a date falls between the first days of its year and of the next |
| EpochTime.MonthsFill | utils/helpers.py:7 | the months of a year follow one another and together fill the year |
| EpochTime.YearFrom | utils/helpers.py:7 | the year search ends on a year that holds the remaining day, with the day count preserved |
| EpochTime.MonthFrom | utils/helpers.py:7 | the month search ends on a month (1..12) that holds the day |
| EpochTime.CivilFromDays | utils/helpers.py:5-10 | the date of day n is a valid Gregorian date n days after 1970-01-01, inside its year |
| EpochTime.CivilInjective | utils/helpers.py:5-10 | different valid dates are different numbers of days from the epoch |
| EpochTime.CivilRoundTrip | utils/helpers.py:5-10 | counting a date's days and converting back gives the date |
| EpochTime.NextDay | utils/helpers.py:10 | the calendar's next day of a valid date is valid |
| EpochTime.NextDayIsOneMore | utils/helpers.py:10 | the next day is one more day from the epoch |
| EpochTime.CivilNext | utils/helpers.py:10 | day n+1 is the calendar's next day after day n |
| EpochTime.LeapStep | utils/helpers.py:7 | the leap-year count grows by one exactly at Gregorian leap years |
| EpochTime.DaysBeforeYearClosed | utils/helpers.py:7 | days before a year are 365 per year plus one per leap year since 1970 |
| EpochTime.DaysBeforeEnd | utils/helpers.py:5-7 | year 9999 starts on day 2932532 and year 10000 on day 2932897 |
| EpochTime.YearBound | utils/helpers.py:5-7 | day n falls before year 10000 iff n is at most 2932896 |
| EpochTime.FromEpoch | utils/helpers.py:7 | `utcfromtimestamp` gives a valid date with hour < 24, minute < 60, second < 60 |
| EpochTime.DivModOf | utils/helpers.py:7 | proof helper for the round trips: q*k + r with 0 <= r < k divides back into q and r |
| EpochTime.ToEpoch | utils/helpers.py:7 | the seconds of a date and time divide back into its day count and its second of the day |
| EpochTime.EpochRoundTrip | utils/helpers.py:7 | converting an epoch's date and time back to seconds gives the epoch |
| EpochTime.DateTimeRoundTrip | utils/helpers.py:7 | the seconds of a valid date and time convert back to that date and time |
| EpochTime.SameDaySameDate | utils/helpers.py:7-10 | epochs with the same `e div 86400` have the same date |
| EpochTime.AddOneDay | utils/helpers.py:7-10 | adding 86400 moves to the next calendar day and keeps hour, minute and second |
| EpochTime.InRange | utils/helpers.py:5-7 | the year is at most 9999 iff the epoch is at most 253402300799 |
| EpochTime.MaxEpochIsLastSecond | utils/helpers.py:5-7 | 253402300799 is 9999-12-31 23:59:59, both ways |
| EpochTime.Pow10 | utils/helpers.py:7 | proof helper for `Pad` and `ParsePad`: powers of ten are positive |
| EpochTime.DigitChar | utils/helpers.py:7 | a digit value's character is a decimal digit |
| EpochTime.Pad | utils/helpers.py:7 | zero-padding writes exactly w decimal digits |
| EpochTime.ParsePad | utils/helpers.py:7 | reading the padded digits back gives the number |
| EpochTime.FormatDate | utils/helpers.py:10 | the ISO form of a date has 10 characters |
| EpochTime.FormatDateTime | utils/helpers.py:7 | the `%Y-%m-%d %H:%M:%S` form has 19 characters |
| EpochTime.FormatFields | utils/helpers.py:7 | the formatted string has the fixed shape, and each field slice is the padded field |
| EpochTime.FormatRoundTrip | utils/helpers.py:7 | parsing the formatted string gives back the date and time |
| EpochTime.EpochToUtc | utils/helpers.py:5-7 | `epoch_to_utc`: defined iff the epoch is at most 253402300799, and then 19 characters |
| EpochTime.EpochToDate | utils/helpers.py:9-10 | `epoch_to_date`: defined on the same epochs, and then a valid date exactly `e div 86400` days after 1970-01-01 |
| EpochTime.EpochZero | utils/helpers.py:5-7 | epoch 0 converts to "1970-01-01 00:00:00": UTC, no offset |
| EpochTime.UtcDefinedShape | utils/helpers.py:5-7 | `epoch_to_utc` is defined iff e <= 253402300799, and is then 19 characters shaped `YYYY-MM-DD HH:MM:SS` |
| EpochTime.UtcFields | utils/helpers.py:5-7 | the written fields read back as the calendar date of `e div 86400` (month 1..12, day within the month), then `(e mod 86400) div 3600`, `(e mod 3600) div 60` and `e mod 60` |
| EpochTime.DateIsPrefix | utils/helpers.py:5-10 | both helpers are defined on the same epochs, and the first 10 characters of `epoch_to_utc` are the ISO form of `epoch_to_date` |
| EpochTime.SameDayDate | utils/helpers.py:9-10 | epochs with the same `e div 86400` give the same `epoch_to_date` |
| EpochTime.DateAddOneDay | utils/helpers.py:9-10 | within range, 86400 seconds later `epoch_to_date` is the next calendar day |
| EpochTime.UtcRoundTrip | utils/helpers.py:5-7 | reading the produced string back as seconds gives the original epoch |
| EpochTime.UtcOnto | utils/helpers.py:5-7 | every valid time up to year 9999 is produced, by its own epoch, which is in range |
| OAuthFlow.LoginSession | auth/auth_code.py:60-67 | the login session uses the local redirect URI and sends the state "authorize" |
| OAuthFlow.TokenSession | auth/auth_code.py:88-93 | the token session uses the same redirect URI and the grant type "authorization_code" |
| OAuthFlow.FirstValue | auth/auth_code.py:21-22 | `params.get(key, [None])[0]` is present iff the parameter is, and is then its first value |
| OAuthFlow.Decide | auth/auth_code.py:21-24 | a callback is accepted iff its first `auth_code` is present and non-empty and its first `state` is exactly "authorize"; the accepted code is that first value |
| OAuthFlow.ResponseFor | auth/auth_code.py:25-35 | a rejection is 400 with no header of its own and the error body; an acceptance is 200 with `Content-type: text/html` and the success HTML |
| OAuthFlow.Callback | auth/auth_code.py:24-37 | a rejected callback changes no slot and requests no shutdown; an accepted one sets `auth_code` to the code and requests shutdown; `access_token` is never touched |
| OAuthFlow.Await | auth/auth_code.py:75-76 | the wait never touches `access_token` and ends holding a code unless every request has been served |
| OAuthFlow.FirstAccepted | auth/auth_code.py:17-37 | finds the first accepted request, with every earlier one rejected, or reports that all are rejected |
| OAuthFlow.Flow | auth/auth_code.py:81-105 | `generate_access_token` on the slots: it skips iff a truthy token is held; otherwise the code slot is the one the wait leaves, and it stays waiting iff the wait ends without a code |
| OAuthFlow.FirstValueOnly | auth/auth_code.py:21-22 | values after the first of a repeated parameter never change the decision |
| OAuthFlow.LoginStateAccepted | auth/auth_code.py:14-24 | a redirect carrying the state the login sent and a non-empty code is accepted with that code |
| OAuthFlow.AwaitTakesFirstAccepted | auth/auth_code.py:75-76 | with no code held, the wait stops right after the first accepted request and holds its code; with none accepted it serves everything and holds nothing |
| OAuthFlow.AwaitWithCode | auth/auth_code.py:75-76 | a code already held ends the wait at once |
| OAuthFlow.TokenHeldSkips | auth/auth_code.py:82-84 | a truthy token makes the flow return at once, with no slot changed and no login |
| OAuthFlow.TokenFromResponse | auth/auth_code.py:95-100 | a published token is the `access_token` field of a successful exchange for the code held |
| OAuthFlow.TokenPublished | auth/auth_code.py:95-100 | when no token is held, the wait ends with a code, and the exchange for that code succeeds with an `access_token`, the flow publishes exactly that field, keeps the code, and reports it |
| OAuthFlow.TokenNotPublished | auth/auth_code.py:97-105 | when the exchange for the code held raises, or answers without `access_token`, the flow reports a failure and the slots are those the wait left |
| OAuthFlow.FailureKeepsToken | auth/auth_code.py:97-105 | on every outcome except a new token, `access_token` keeps its previous value |
| OAuthFlow.SecondRunSkips | auth/auth_code.py:81-100 | once a non-empty token is published, running the flow again changes nothing |
| OAuthFlow.FreshFlow | auth/auth_code.py:81-105 | from empty slots: with no accepted callback the flow is still waiting; otherwise the whole result is fixed by the exchange for the first accepted code: both slots filled and the token reported, or the code alone and a failure |
| OAuthFlow.LoginEndToEnd | auth/auth_code.py:17-100 | the redirect `?auth_code=ABC123&state=authorize` gets the 200 success page and fills the code slot, and an exchange answering `{"access_token": "tok_xyz"}` then fills the token slot with "tok_xyz" |
| OAuthFlow.Settings.HandleGet | auth/auth_code.py:18-37 | `do_GET` sends the response of the decision, and its new slots and shutdown request are those of `Callback` |
| OAuthFlow.Settings.AwaitAuthCode | auth/auth_code.py:71-76 | the wait loop's new slots and served count are those of `Await`, with one response per served request |
| OAuthFlow.Settings.GenerateAccessToken | auth/auth_code.py:81-105 | `generate_access_token`'s new slots and outcome are those of `Flow` |
| SectorSearch.IsFinance | test1.py:56 | `s_name == 'Finance'`: a missing name is not Finance |
| SectorSearch.SubsOf | test1.py:53 | a sector without a `sub_sectors` key has no sub-sectors |
| SectorSearch.FirstHousing | test1.py:61-65 | the inner loop finds nothing iff no sub-sector is named "Housing" |
| SectorSearch.FirstHousingAt | test1.py:61-65 | first wins: the code found is that of the first "Housing" entry |
| SectorSearch.FinanceCode | test1.py:46-57 | `finance_sector_code` after the loop; `FinanceCodeIsLast` and `NoFinanceCode` characterise it |
| SectorSearch.HousingCode | test1.py:47-65 | `housing_sub_code` after the loop; `HousingCodeIs` characterises it |
| SectorSearch.ShouldFetch | test1.py:68 | the fetch gate: both codes present and non-empty |
| SectorSearch.NoFinanceCode | test1.py:46-57 | with no sector named "Finance", both codes stay None |
| SectorSearch.NoFinanceNoFetch | test1.py:46-68 | with no sector named "Finance", no stocks are fetched |
| SectorSearch.FinanceCodeIsLast | test1.py:50-57 | last wins: the sector code is that of the last sector named "Finance" |
| SectorSearch.IgnoresOtherSectors | test1.py:50-65 | a sector not named "Finance", with whatever sub-sectors, changes neither code |
| SectorSearch.LaterFinanceWithoutHousing | test1.py:56-65 | a later Finance sector without "Housing" takes over the sector code but keeps the earlier housing code |
| SectorSearch.HousingCodeIs | test1.py:47-65 | the housing code is None iff no Finance sector has "Housing"; otherwise it is the first "Housing" code of a Finance sector after which no Finance sector has one |
| SectorSearch.FindCodes | test1.py:46-65 | the nested loop ends with the sector code and the housing code these lemmas describe |
| SectorSearch.PayloadData | test1.py:7-15 | a fetch gives the payload's `data` when its `code` is 200, and `[]` on any other code, a missing `data` key or an exception |
| SectorSearch.StocksParams | test1.py:18-27 | `get_stocks` sends the two codes, the page, sort_by "percentage_change" and sort_type "asc" |
| SectorSearch.DefaultPage | test1.py:18 | called with two arguments, `get_stocks` asks for page 1 |
| SectorSearch.Explore | test1.py:42-71 | stocks are fetched iff both codes are truthy, with the parameters of the codes found, and the result is the fetch's payload data |

## Left out

- Network access is not modelled: the symbol-master download, the sector and stock fetches and JSON decoding (test.py:5-12, test1.py:8-9 and 30-31). Fetch results are parameters.
- pandas is not modelled: CSV parsing, column renames, DataFrame display, and the market-cap conversion to crores with its float rounding (test.py:9-20 and 77-80, test1.py:73-93).
- Printed messages are left out throughout.
- `IsMySector` is modelled as a predicate on a row. The added DataFrame column is not modelled.
- `str(row_desc)` is modelled only for strings and for a missing cell (NaN prints as "nan"). Numeric descriptions are not modelled.
- `upper()`, `strip()` and `isspace()` are ASCII only. Unicode case mapping and Unicode whitespace are not modelled.
- The HTTP server, socket binding and address reuse are left out (auth/auth_code.py:43-57). So are the threads, the browser and the one-second polling (auth/auth_code.py:71-76). The model keeps the order of events: callback requests are served one after another while the wait lasts.
- The callback server runs in its own thread, and so does its `shutdown` (auth/auth_code.py:37). The real server can therefore serve more callbacks after one has been accepted, or after the wait has returned when a code was already held. With HTTP/1.1 connections kept open (auth/auth_code.py:52), a later accepted callback can overwrite `auth_code` before `generate_access_token` reads it. The model serves one request at a time and stops at the first accepted one. `OAuthFlow.AwaitTakesFirstAccepted` and `OAuthFlow.FreshFlow` ("the first accepted code") hold only under that ordering.
- OAuthFlow.ResponseFor: the model's headers are only the handler's own `send_header` calls. The `Server` and `Date` headers that `send_response` adds are not modelled.
- OAuthFlow.Settings.AwaitAuthCode: the real wait never returns without a code. The model stops after the requests it is given and reports `AwaitingCallback`.
- `fyersModel.SessionModel` is a foreign library and is not modelled: the login URL (auth/auth_code.py:69) and `set_token` are left out. The token exchange is the parameter `exchange`, which gives a response map or a failure.
- The exchange's response values are modelled as strings.
- auth/auth_code.py:105 prints `response`, which is unbound when `generate_token` raises, so the real program ends with a `NameError`. The model treats it as an ordinary failure that leaves the token slot unchanged.
- `parse_qs` internals are not modelled (percent-decoding, `+`, blank values). The query is taken already parsed, with at least one value per name present.
- config.settings is not part of this model. Its `client_id` and `secret_id` are constructor arguments of `Settings`.
- Epochs are natural numbers. Float, fractional and negative epochs are left out, and so is platform-specific `strftime` padding.
- Years after 9999, where `datetime` raises, give `None`.
- test1.py: a sub-sector without a `name` or `code` key raises `KeyError` in the source. The model's sub-sectors always have both.
- test1.py: a `sub_sectors` value of JSON null is not modelled. Neither are non-string sector codes and non-integer payload codes: codes are strings, and a payload `code` is an optional integer.
- SectorSearch.PayloadData: a non-list `data` value is not modelled.
- `generate sector data.py` is not part of this model.
