# Workout log back end — Dafny model

This project models the server side of a small workout log: a Flask
application (`app.py`) that keeps a list of workout records and serves it
through a JSON API. It models:

- **Validation and normalisation** (`validate_and_normalize`). Text fields are
  trimmed the way Python's `str.strip()` trims them. Numeric fields go
  through `_to_number`, which passes every value through `float()`. So a
  large integer is rounded to the nearest double, one beyond the double
  range falls back to 0, a boolean becomes 1 or 0, and anything that does
  not parse becomes 0. The
  checks then run in the source's order and build an ordered list of
  messages. The list is empty exactly when the record meets every rule.
- **Sorting** (`sort_workouts`). Records are ordered newest first by the pair
  (date, id), as Python compares tuples of strings. The sort is stable, as
  Python's `sorted(..., reverse=True)` is.
- **Paging** (`paginate`). Pages hold ten records. There is always at least
  one page. Any requested page number is clamped into range. Together the
  pages partition the list.
- **The record list behind the handlers** (`WorkoutStore`). It covers list,
  get, create, update and delete, plus the "fewer than 30 records, reseed"
  step of `_ensure_seeded`. Each handler is one atomic step, because the
  source holds a lock around each read-modify-write. The invariants "every
  stored record is acceptable" and "ids are unique" are shown to be
  preserved.

Modules: `Text` (whitespace, stripping, digits, string order), `Numbers`
(`_to_number` and the integer-to-double rounding of `float()`), `Records`
(the record, the payload, normalisation), `Validation`,
`Sorting`, `Paging`, `Store`.

A page that exists is empty only when there are no records
(`Paging.Paginate`).

Every API handler first runs the seeding step (app.py:197, 211, 223, 240,
262); serving the front end does not. So once deletes bring the list
below 30 records, the next API request replaces every record with
a fresh seed: a delete from 30 records leaves 29
(`Store.DeleteFallsBelowSeedSize`), and `Store.WorkoutStore.EnsureSeeded`
then replaces the list.

## Model

| member | source | states |
|---|---|---|
| `Text.TrimStart` | app.py:115-117 | the result is a suffix of the input, everything dropped is whitespace, and the result does not start with whitespace |
| `Text.TrimEnd` | app.py:115-117 | the result is a prefix of the input, everything dropped is whitespace, and the result does not end with whitespace |
| `Text.Strip` | app.py:115-117 | `str.strip()` removes only surrounding whitespace and all of it: the result is a middle part of the input with nothing but whitespace before and after it, and it neither starts nor ends with whitespace |
| `Text.StripUnique` | app.py:115-117 | any trimmed middle part with only whitespace around it is the strip, so the two properties above determine `str.strip()` completely |
| `Text.StripIdempotent` | app.py:115-117 | stripping an already stripped field changes nothing |
| `Text.StripEmptyIffBlank` | app.py:115-117 | a field strips to the empty string exactly when it is all whitespace |
| `Text.StrLessTransitive` | app.py:171 | Python's string order (by code point, a proper prefix first) is transitive |
| `Text.StrLessTotal` | app.py:171 | any two different strings are ordered one way or the other |
| `Text.StrLessAsymmetric` | app.py:171 | no two strings are each smaller than the other |
| `Numbers.Spacing` | app.py:99 | the gap between neighbouring doubles around a number is a power of two: 1 below 2^53, and otherwise the one that gives the number 53 significant bits |
| `Numbers.NearestDouble` | app.py:99 | `float()` of an integer rounds half to even: the result is a multiple of the spacing, at most half a spacing away, and on a tie an even number of spacings |
| `Numbers.NearestIsDouble` | app.py:99 | the rounded value is itself a double, also when rounding carries into the next binade |
| `Numbers.ToNumber` | app.py:96-107 | `_to_number` gives 1 or 0 for a boolean and the default for anything `float()` refuses; an integer up to 2^53 in magnitude is kept exactly, one whose rounding exceeds the largest finite double gives the default, and any other becomes the nearest double with its sign |
| `Numbers.ToNumberIdempotent` | app.py:96-107 | coercing an already coerced value again gives the same number, for an exact default such as 0 or 1 |
| `Numbers.HugeIntegerFallsBack` | app.py:96-107 | every integer beyond 2^1024 in magnitude makes `float()` overflow, so `_to_number` returns the default |
| `Numbers.RoundsToEven` | app.py:99 | 2^53 + 1 is coerced to 2^53 |
| `Records.FieldText` | app.py:115-117 | `(payload.get(k) or "").strip()`: an absent or null field gives the empty string; a given one loses exactly its surrounding whitespace |
| `Records.Normalize` | app.py:113-122 | the id is `existing_id` when given and non-empty, else the fresh id; each text field is its input minus the surrounding whitespace (empty when absent); each numeric field is `_to_number` of its payload value with default 0 |
| `Records.NormalizeRoundTrip` | app.py:113-122 | sending a normalised record back under its own id normalises to the very same record |
| `Records.NormalizedFieldEmptyIffBlank` | app.py:115-117 | a text field normalises to empty exactly when it is absent, null or all whitespace, which is when its "is required." message fires |
| `Validation.ValidateAndNormalize` | app.py:110-162 | the record keeps `existing_id` when one is given and non-empty, otherwise it gets the fresh id; the errors are the ordered messages of the failing rules, and there are none exactly when the record is acceptable |
| `Validation.CollectErrors` | app.py:124-160 | the appends and the numeric loop with its `break` produce exactly the messages of the failing rules, in rule order; the list is empty iff the record is acceptable |
| `Validation.TextFieldErrors` | app.py:124-148 | the required-field, date, length and type checks append exactly the messages of those of the first seven rules that fail, in rule order; the invalid-date check runs only when the date is present and well formed |
| `Validation.ErrorMessages` | app.py:124-160 | the error list: for each of the nine checks in order, its message when it fails |
| `Validation.NoErrorsIffAcceptable` | app.py:124-160 | no errors iff: date, exercise and type are non-empty; the date has the `YYYY-MM-DD` shape and is a real date; the exercise has at most 40 characters; the type is Strength, Cardio or Endurance; no numeric field is negative; and duration, sets, reps or weight is positive |
| `Validation.Acceptable` | app.py:124-160 | the positive statement of what the back end stores, one conjunct per check |
| `Validation.AcceptableIffNoRuleFails` | app.py:124-160 | the positive statement of acceptance is equivalent to "none of the nine checks fires" |
| `Validation.MessageReportedIff` | app.py:124-160 | each check's message is in the error list exactly when that check fails |
| `Validation.ReportedNoDuplicates` | app.py:151-154 | no message appears twice; in particular there is at most one numeric message however many fields are negative |
| `Validation.MessagesDistinct` | app.py:126-160 | the nine checks report nine different messages with nine different wordings |
| `Validation.EmptyDateOnlyRequired` | app.py:125-141 | an empty date yields "Date is required." and never the format or invalid-date message |
| `Validation.MalformedDateNotInvalid` | app.py:133-141 | a date of the wrong shape yields the format message and never "Date is invalid." |
| `Validation.BlankPayloadErrors` | app.py:113-160 | blank date, whitespace exercise, no type and a negative duration give exactly five messages, in order: three "is required.", the numeric one and the cross-field one |
| `Validation.BlankRecordErrors` | app.py:124-160 | any record with no date, exercise or type, a negative duration and no strength data gets exactly those five messages, in that order |
| `Validation.CardioSessionAcceptable` | app.py:124-160 | a 30-minute Cardio "Run" on 2024-01-01 with no strength data is accepted |
| `Validation.HugeNegativeDurationAccepted` | app.py:96-160 | a payload whose duration is a negative integer beyond 2^1024 in magnitude, with one set, normalises to duration 0 and is accepted with no messages, because `float()` overflows |
| `Validation.DaysInMonth` | app.py:139 | months have 28 to 31 days, and February has 29 exactly in leap years |
| `Validation.DateShape` | app.py:93 | the date pattern holds exactly when the text has ten characters, dashes at positions 4 and 7 and ASCII digits everywhere else |
| `Validation.IsCalendarDate` | app.py:137-141 | `strptime` accepts a well-shaped date when the year is at least 1, the month is 1 to 12 and the day exists in that month |
| `Validation.DateFields` | app.py:133-141 | ten characters with digits at 0-3, 5-6 and 8-9 and dashes at 4 and 7 have the `YYYY-MM-DD` shape, and the year, month and day are the numbers those digits spell |
| `Validation.LeapDayExists` | app.py:137-141 | 2024-02-29 is a real date |
| `Validation.NoLeapDayIn2023` | app.py:137-141 | 2023-02-29 is not a real date |
| `Validation.YearZeroInvalid` | app.py:133-141 | 0000-01-01 has the right shape but is not a real date, because year 0 is out of range |
| `Sorting.KeyLessTransitive` | app.py:171 | the (date, id) tuple order is transitive |
| `Sorting.KeyTrichotomy` | app.py:171 | two records either have the same (date, id) or are ordered one way or the other |
| `Sorting.NotLessTransitive` | app.py:171 | "not smaller than" on (date, id) is transitive |
| `Sorting.KeyLess` | app.py:171 | the (date, id) tuple comparison, strict: no record is smaller than one with its own key |
| `Sorting.SortWorkouts` | app.py:168-171 | `sort_workouts` returns the same records with the same multiplicities, so also the same number of them |
| `Sorting.SortDescending` | app.py:168-171 | no record in the sorted list has a smaller (date, id) key than any record after it |
| `Sorting.SortStable` | app.py:168-171 | records with equal (date, id) keep their input order |
| `Paging.TotalPages` | app.py:176 | `max(1, ceil(n/10))`: at least one page, a single page for no records, otherwise just enough pages of ten |
| `Paging.ClampPage` | app.py:177 | the page lies in `[1, totalPages]` and equals the request when the request is in range |
| `Paging.PageBounds` | app.py:176-180 | every page up to the last starts within the list, the window of a page before the last ends inside the list, and the last page's window reaches its end |
| `Paging.Slice` | app.py:181 | Python slicing cuts an end past the length back to the length |
| `Paging.Paginate` | app.py:174-189 | pageSize is 10 and total is the input length; totalPages is `max(1, ceil(n/10))`; the page is clamped into range, including zero and negative requests; the items are exactly `items[(page-1)*10 : page*10]`, at most 10; a page is never empty unless the list is; every page before the last is full |
| `Paging.PageWindow` | app.py:179-181 | a page before the last holds ten records from its first one; the last page holds the rest of the list |
| `Paging.AllPagesReproduceInput` | app.py:174-189 | concatenating pages 1 to totalPages gives back the input in order |
| `Store.IndexOfId` | app.py:245 | the position found holds the id, and no earlier record has it |
| `Store.Without` | app.py:267 | the comprehension keeps only records of the input, none of them with the id, and never lengthens the list |
| `Store.FirstIndexOf` | app.py:214 | the generator search finds nothing exactly when no record has the id; otherwise it finds the first record that has it |
| `Store.RemoveAll` | app.py:267 | the filtering comprehension keeps exactly the records whose id differs, in order |
| `Store.WithoutKeepsExactlyOthers` | app.py:267 | after removal no record has the id, and every other record stays, as often as it occurred |
| `Store.WithoutLength` | app.py:266-270 | the length is unchanged (the "not found" case) exactly when no record had the id, and then the list is unchanged |
| `Store.WithoutKeepsInvariants` | app.py:267 | unique ids and acceptability survive removal |
| `Store.AppendKeepsInvariants` | app.py:230-232 | appending an acceptable record keeps every record acceptable, and keeps ids unique when the new id is unused |
| `Store.ReplaceKeepsInvariants` | app.py:253 | replacing a record by an acceptable one that carries the same id keeps both invariants |
| `Store.DeleteFallsBelowSeedSize` | app.py:260-270 | deleting an existing record from a list of exactly 30 leaves fewer than 30, so the seeding step at the start of the next API request (app.py:82-87) replaces the list |
| `Store.WorkoutStore.EnsureSeeded` | app.py:82-87 | fewer than 30 records are replaced wholesale by the seed; otherwise nothing changes |
| `Store.WorkoutStore.List` | app.py:195-206 | the answer is the page of the records sorted newest first; a page argument that does not parse counts as 1; a page number in range (and at most 2^53) is served as asked; total equals the number of stored records |
| `Store.WorkoutStore.Get` | app.py:209-218 | "not found" exactly when no record has the id; otherwise the first record with the id |
| `Store.WorkoutStore.Create` | app.py:221-235 | an invalid payload gets its messages and changes nothing; a valid one is appended at the end with the fresh id, and the length grows by one; acceptability and id uniqueness (given a fresh id) are preserved |
| `Store.WorkoutStore.Update` | app.py:238-257 | an unknown id is "not found" before validation runs; an invalid payload changes nothing; otherwise only the first record with the id is replaced, by the normalised payload carrying that id; the length is kept; acceptability and id uniqueness are preserved |
| `Store.WorkoutStore.Delete` | app.py:260-274 | every record with the id is removed and the rest keep their order; "not found", with nothing changed, exactly when none had it; acceptability and id uniqueness are preserved |

## Left out

- HTTP routing, request parsing, `jsonify` and status codes: a handler's answer is the `Store.Response` datatype, with the status noted beside each constructor.
- Reading and writing the JSON data file (`_read_all`, `_write_all`, the atomic replace): the store is the `items` field. Because of this the model also leaves out that an unreadable file reads as an empty list.
- The lock: its purpose is concurrency, and each handler is modelled as one atomic step.
- `uuid4`: fresh ids are parameters. Uniqueness after a create holds only when the caller's id is not already in use.
- `_seed_30`: its dates come from `datetime` arithmetic and its ids from `uuid4`. `EnsureSeeded` takes the seed as a parameter, and the handlers are modelled from the point after seeding.
- Numbers.ToNumber: non-integral values are not modelled. These are JSON numbers with a fraction or exponent, texts such as "2.5" or "1e3", the snapping to an integer within 1e-9, and the `int()` truncation of a float page number in the list handler. `Integer(n)` is a JSON integer or a decimal integer text, both of which `float()` rounds the same way. Absent keys, null, other texts, "nan" and "inf" are `NotANumber` and give the default.
- Numbers.HugeIntegerFallsBack: stated for magnitudes above 2^1024. Overflow in fact starts at 2^1024 - 2^970, which `Numbers.Overflows` captures through the rounding, but the exact threshold is not proved as a lemma.
- Payload text fields that are truthy non-strings (a non-zero number sent as "date", `true`, a non-empty list or object) make `.strip()` raise; they are not modelled. Falsy non-strings (`0`, `false`, `[]`, `{}`) become `""` through `or ""` and get the "is required." message, which is what `None` models. A JSON body that is not an object is not modelled either.
- Python's `\d` (in the date pattern and in `strptime`) also matches non-ASCII decimal digits. Dates are modelled with ASCII digits only.
- Store.WorkoutStore.Update: requires a non-empty id, because a URL path segment is never empty. The case where `existing_id` is empty and so falsy is not modelled.
- Records missing a `date` or `id` key (`x.get("date", "")` in the sort key) are not modelled: every stored record has every field.
- Serving the static front end.
