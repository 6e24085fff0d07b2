# Student daily timetable planner: the generator and its input checks

The planner is a one-page form. The user picks a start time and types a
comma-separated list of subjects and a comma-separated list of durations in
minutes. The user also sets a break length. The "Generate Timetable" button
splits both lists on commas, strips each field and reads each duration with
`int()`. It refuses to go on when the two lists differ in length. Otherwise
it runs `generate_timetable`. That function moves a clock forward from the
start time. For each subject in order, it emits a row from the clock to the
clock plus the subject's duration. When the break length is positive, it
then emits a `"Break"` row of that length.

This project models that core in Dafny:

- `wrappers.dfy` (`Wrappers`): `Option` and `Result`.
- `text.dfy` (`Text`): Python's `str.isspace`, `str.strip()`, `str.split(",")`
  with its inverse `",".join`, and the base-10 grammar of `int(str)` with its
  inverse `str(int)`.
- `clock.dfy` (`Clock`): the time of day as minutes since midnight (0..1439).
  Adding `timedelta(minutes=d)` is `Advance`, modulo 1440, because only
  `%H:%M` is ever printed; `AdvanceCongruent`, `AdvanceWithinDay` and
  `AdvanceAdd` state what it computes. It also has `strftime("%H:%M")` and
  `strptime(_, "%H:%M")`.
- `timetable.dfy` (`Timetable`): `generate_timetable` as a method with the
  source's loop (`GenerateTimetable`). The method is proved equal to a
  recursive specification `Rows`, which itself states that the table is
  empty exactly when `zip` yields nothing and otherwise starts at the start
  time. Lemmas about `Rows` state the row count, the closed form of every row,
  contiguity, the final end, the row spans and the label order.
- `planner.dfy` (`Planner`): the input preparation in `main` as functions
  (`Fields`, `Collect`, `ReadForm`), and the button's success path as methods
  (`GenerateChecked`, `OnGenerate`).

The table is a sequence of `Row(subject, start, end)` records with times in
minutes. `FormatHHMM` gives the `HH:MM` text that the table shows for each time.

Durations may be any integer `int()` reads, negative ones included, and the
clock wraps past midnight, so a row can end before it starts
(`ScenarioPastMidnight`). A subject literally named `Break` produces a row
that cannot be told apart from a break row; labels are plain strings, so the
model keeps that too.

## Model

| member | source | states |
|---|---|---|
| `Text.Split` | app.py:39-40 | `split(",")` gives one more piece than there are commas, and no piece contains a comma |
| `Text.JoinSplit` | app.py:39-40 | splitting loses nothing: joining the pieces with commas gives back the field text |
| `Text.SplitJoin` | app.py:39-40 | splitting a comma-join of comma-free pieces gives back exactly those pieces |
| `Text.Strip` | app.py:39-40 | `strip()` leaves no whitespace at either end of the result |
| `Text.StripBounds` | app.py:39-40 | `strip()` result is one slice of the input, with only whitespace before and after it |
| `Text.StripFixed` | app.py:39-40 | `strip()` leaves a field with no whitespace at either end unchanged |
| `Text.StripIdempotent` | app.py:39-40 | stripping a stripped field changes nothing |
| `Text.ParseInt` | app.py:40 | `int()` accepts a stripped field exactly when, after an optional sign, it is non-empty and every position is a digit or an underscore with a digit on each side |
| `Text.DigitGroupsShape` | app.py:40 | the recursive grammar `digit ("_"? digit)*` and the position-by-position shape accept the same strings |
| `Text.ParseIntToText` | app.py:40 | `int()` reads back every integer `str()` writes, negative ones included |
| `Clock.AdvanceCongruent` | app.py:11 | adding a duration gives the one time of day congruent to start plus duration modulo 1440 minutes, wrapping with no day marker |
| `Clock.AdvanceWithinDay` | app.py:18 | a move that stays within the day, such as a break that ends before midnight, is plain addition |
| `Clock.AdvanceAdd` | app.py:11-20 | advancing by `a` then by `b` is advancing by `a + b`: chaining the clock through rows loses nothing to wrapping |
| `Clock.FormatHHMM` | app.py:12 | `strftime("%H:%M")` is five characters: two-digit hour, colon, two-digit minute, with the time's hour and minute as values |
| `Clock.ParseHHMM` | app.py:8 | `strptime(_, "%H:%M")` accepts only 3 to 5 characters around a colon |
| `Clock.ParseFormat` | app.py:45 | the start time printed in `main` is read back by the generator as the same time of day |
| `Clock.FormatParse` | app.py:8 | a five-character time that `strptime` accepts is exactly what `strftime` prints for it |
| `Timetable.Pairs` | app.py:10 | `zip` yields as many pairs as the shorter list: no more than either length, and equal to one of them |
| `Timetable.Block` | app.py:11-20 | one subject contributes one row, or two when the break length is positive |
| `Timetable.Rows` | app.py:10-20 | the generated table is empty exactly when `zip` yields no pair, and otherwise its first row starts at the start time |
| `Timetable.GenerateTimetable` | app.py:6-22 | the loop's rows equal the specification `Rows` for the zipped subjects and durations |
| `Timetable.AppendBlock` | app.py:11-20 | one pass of the loop appends the subject's row and, with a positive break length, a break row, and leaves the clock at the last row's end |
| `Timetable.RowsLength` | app.py:10-20 | the table has `2 * n` rows when the break length is positive, else `n`, where `n` is the number of zipped pairs |
| `Timetable.SubjectRowAt` | app.py:10-13 | subject `i` is labelled `subjects[i]`, starts at start + earlier durations + one break per earlier subject (mod 1440), and ends `durations[i]` minutes later |
| `Timetable.BreakRowAt` | app.py:16-20 | with a positive break length, the row after subject `i` is `"Break"`, from that subject's end to the next subject's start |
| `Timetable.Contiguous` | app.py:13-20 | each row starts where the previous row ended |
| `Timetable.RowSpans` | app.py:11-19 | a subject row ends its duration after its start, and a break row ends the break length after its start, both modulo 1440 |
| `Timetable.FinalEnd` | app.py:10-20 | the last row ends at start + sum of durations + `n` breaks, modulo 1440 |
| `Timetable.RowLabels` | app.py:10-20 | with breaks, rows alternate subject `j / 2` and `"Break"`; without breaks, row `j` is subject `j`; subjects stay in input order |
| `Timetable.LabelsWithoutBreaks` | app.py:12-16 | with a break length of zero or less, the labels are exactly the zipped subjects in input order |
| `Timetable.ScenarioWithBreaks` | app.py:6-22 | Math 60 and Science 45 from 08:00 with 10-minute breaks give 08:00-09:00, 09:00-09:10, 09:10-09:55, 09:55-10:05 |
| `Timetable.ScenarioWithoutBreaks` | app.py:16 | the same with a zero break give 08:00-09:00, 09:00-09:45 and no break rows |
| `Timetable.ScenarioPastMidnight` | app.py:11-12 | a 45-minute subject from 23:30 ends at 00:15 |
| `Planner.Fields` | app.py:39-40 | entry `i` is the stripped `i`-th comma-separated piece; there is one entry per piece, each stripped and comma-free |
| `Planner.Readings` | app.py:40 | one `int()` reading per stripped duration field, in order |
| `Planner.Collect` | app.py:40 | all durations are read, each equal to `int()` of its field, or the error names the first field `int()` refuses |
| `Planner.ReadForm` | app.py:39-44 | on success the subjects are the stripped comma-separated fields and there are as many durations as subjects |
| `Planner.ReadFormOutcome` | app.py:39-44 | succeeds exactly when the two lists have equal length and `int()` accepts every duration field; the durations are those values; a refused field is one of the fields and is reported before a length mismatch, which carries both lengths |
| `Planner.GenerateChecked` | app.py:45 | from the widget's start time, the generator's rows cover every subject of the checked lists in order |
| `Planner.OnGenerate` | app.py:39-45 | either the input error of `ReadForm`, or the generator's rows for the checked lists, `RowsPerSubject` rows per subject |
| `Planner.ZipDropsUnpaired` | app.py:10 | with lists of different lengths, `zip` yields fewer rows than the longer list needs, which the length check prevents |
| `Planner.ScenarioCountMismatch` | app.py:42-43 | subjects `A, B` with durations `30` are refused as a count mismatch of 2 against 1 |
| `Planner.ScenarioNotAnInteger` | app.py:40 | a duration `abc` is refused as not an integer |

## Left out

- The Streamlit page (app.py:26-37, 43, 46-47, 56-64) is presentation: the title, the widgets, the button, the error and success messages, and the table display.
- The pandas `DataFrame` and the CSV download (app.py:22, 50-51) are library calls. The table is a plain sequence of rows, and the CSV export with its read-back is not modelled.
- The `try`/`except Exception` (app.py:38, 52-53) only turns exceptions into a message. The model returns an `InputError` value instead. The message text is not modelled.
- Text.ParseInt: does not model the non-ASCII decimal digits that Python's `int()` also accepts, because the model works on ASCII digits only.
- Text.ParseInt: does not model the limit of 4300 digits that `int()` enforces on decimal strings by default (Python 3.11 and the 2022 security releases, configurable through `sys.set_int_max_str_digits`). A longer duration field is a `ValueError` there and a number here, so `ReadFormOutcome` and `OnGenerate` report success where the page shows an error.
- Clock.ParseHHMM: does not model non-ASCII digits, which `strptime`'s `\d` also matches. Only the exact strftime form is ever passed to it.
- Timetable.GenerateTimetable: takes the start as minutes. Parsing the `HH:MM` text is in `Clock.ParseHHMM`, and `Planner.GenerateChecked` chains the two.
- Timetable.GenerateTimetable: does not model the `OverflowError` that `datetime` raises when durations carry the clock outside years 1 to 9999. The clock starts on 1900-01-01, so this takes a running total of about one billion minutes backwards (693 595 days) or about 4.3 billion forwards; the model only keeps the time of day.
- The widget's start time arrives as a `datetime.time`. The model takes it as minutes since midnight; seconds play no part because the widget sets none.
- The break length is any integer in the model. The widget has `min_value=0`, and the code only tests `break_time > 0`. `Timetable.FinalEnd` counts `BreakMinutes(breakTime)` per subject, which is `break_time` whenever the widget allows a break.
- Running `generate_timetable` twice on the same inputs gives the same table. This holds for any Dafny function and needs no lemma.
