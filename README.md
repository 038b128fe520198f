# Exam generator engine in Dafny

This project models the exam-generation engine of `DataBase.py` and proves properties of the model. The engine has four parts:

- **Catalog loader** (`read_csv` without opening the file). It validates each CSV row of questions in a fixed order and stores it in normalised form.
- **Constraint loader** (`read_config` without the INI parsing). It checks the configuration section that holds the exam's constraints.
- **Exam generator** (`generate_exam`). It runs a rejection-sampling search: each attempt walks the positions, draws a question for each, and keeps it only when its difficulty matches the position's target and it is not already in the exam. The whole search restarts until one attempt meets the question count, the point total and the title coverage.
- **Error sentinel** (`check_for_LIST`). Every error is returned as the text `LIST <message> && <code>`, and callers recognise such texts by the whole word `LIST`.

Modules, one per component:

- `Wrappers`: `Option`, `Result`.
- `Strings`: the Python string operations the engine relies on.
  - `str.isspace`, `str.strip`, `str.split()`, `str.split(',')`;
  - `int()` on a decimal literal;
  - ConfigParser's boolean tokens.
- `Errors`: the error datatype with its codes and messages, the text encoding, and `check_for_LIST`.
- `Catalog`: row validation and `ReadCsv`.
- `Settings`: `ReadConfig`.
- `Generator`: one attempt and the restart loop.
  - `FillPosition` is one position of the for-loop and `FillPositions` the loop itself. They are proved equal to the recursive functions `Step` and `Run` of the draws.
  - `GenerateExam` is the `while True` loop. It is proved equal to the recursive function `Search` over the supplied attempts.
  - Lemmas about `Run` and `Search` state what an attempt keeps and which attempt is returned.

External inputs become parameters:

- The CSV file is the sequence of its rows (lists of strings), header included. A row's physical line is its index plus one.
- The configuration file is the sequence of its sections, each a map from option name to option text as ConfigParser yields them. ConfigParser lower-cases option names before the checks see them.
- The per-user exclusion list, which the user store returns, is a sequence of strings.
- `random.randint` is replaced by supplied draws. At position `i`, the attempt uses index `draws[i] % |pool|`, which is exactly the draw whenever it is in range. Because the pool shrinks during an attempt, "each draw in range" cannot be a fixed precondition.
- The `while True` restart loop gets a budget: one draw sequence per attempt. Running out of attempts gives the outcome `BudgetExhausted`, which the source never returns because it loops forever.

Behaviour the model keeps from the code, where it differs from what the docstrings and comments lead one to expect:

- **Stored questions keep their raw fields.** An accepted row keeps its first four fields unstripped and only the URL is stripped. The generator compares the raw difficulty with `Hard`/`Medium`/`Easy`, so a row whose difficulty is ` Hard` passes validation and can be drawn, but is never accepted: its position stays unfilled. It also compares the raw title with the stripped exclusions.
- **Only the first exclusion entry is read.** `generate_exam` splits `exclude_list[0]` on commas and ignores later entries (`LaterEntriesIgnored`). An empty list raises IndexError, which gives code 520.
  - Its docstring calls `exclude_list` "a list of titles to exclude", and `exam_generator` passes exactly that: the result of `get_excluded_titles`, already split and stripped.
  - So of a user's stored titles only the first is excluded, and a user without a record gets code 520 (`OnlyFirstTitleExcluded`).
- **Quota counts hold only for non-negative quotas.** The options `hard`, `medium` and `easy` read as the number of questions of each difficulty in an exam. The code guarantees those counts only when the three quotas are non-negative. `read_config` checks only their sum, so in general the counts follow the clamped formula `Quota` (`ExamCounts`).
- **Some failures surface as code 520.** These come from exceptions that a generic handler catches:
  - `read_config`: a bad `points` or `debug` value, because those two are not type-checked first;
  - `read_csv`: rows too short to index, and an empty file (no header);
  - `generate_exam`: an unparsable score on an accepted draw.
- **An excluded title must match exactly.** The comment at line 572 says the exclusions are split and stripped, which suggests surrounding whitespace does not matter. But the code compares the stored title unstripped, so ` Loops` in the catalog is not excluded by `Loops`.

## Model

| member | source | states |
|---|---|---|
| `Errors.CheckForList` | DataBase.py:13-31 | The result is true exactly when a value is present and some maximal run of non-whitespace characters in it is `LIST`; `None` gives false. |
| `Strings.WordsFindDelimited` | DataBase.py:26-29 | A non-empty word without spaces is among the whitespace-split words of a string exactly when it occurs there with whitespace or a string end on both sides. |
| `Errors.SingleWordFlagged` | DataBase.py:27-29 | A text without whitespace is the sentinel exactly when it is `LIST` itself, so `LIST` glued to other characters (`LISTS`, `NOLIST`) is not recognised. |
| `Errors.EncodedErrorIsFlagged` | DataBase.py:644-662 | Every error, encoded as `LIST <message> && <code>`, is recognised by the sentinel test whatever its message contains. |
| `Errors.Error.Code` | DataBase.py:403-426 | Every error has code 400, 500 or 520, and 520 exactly for the errors raised as exceptions inside the generic handlers. |
| `Strings.Strip` | DataBase.py:403 | The strip is empty exactly when the string is all whitespace; otherwise it starts and ends with a non-space character. |
| `Strings.StripKeeps` | DataBase.py:573 | Every character of a stripped string occurs in the original. |
| `Strings.StripIdempotent` | DataBase.py:573 | Stripping twice is stripping once. |
| `Strings.JoinSplit` | DataBase.py:573 | Joining the comma-split pieces with commas gives back the string. |
| `Strings.SplitJoin` | DataBase.py:573 | Splitting comma-joined comma-free pieces gives back the pieces. |
| `Strings.ParseShowInt` | DataBase.py:410 | `int()` reads back the decimal text of every integer, negative ones included. |
| `Catalog.ValidateRow` | DataBase.py:398-421 | A row is accepted exactly when all of these hold:<br>- every non-URL field, extra columns included, is non-blank;<br>- the row has at least four fields;<br>- the stripped difficulty is Hard, Medium or Easy;<br>- the score is an integer in [0, 100].<br>The stored entry is the four raw fields plus the stripped URL, or none when column 4 is absent. Columns past the URL are dropped. |
| `Catalog.ValidateRowOrder` | DataBase.py:403-414 | The errors follow the check order: blank field, then difficulty, then score format, then range, each reported only when all earlier checks passed. A row too short to index is a 520 error; every other row error is 400. |
| `Catalog.RevalidateRow` | DataBase.py:416-421 | A stored entry, written back as a row, validates again to the same entry. |
| `Catalog.ReadCsv` | DataBase.py:388-426 | The load succeeds exactly when a header exists and every following row is accepted. It then holds one entry per data row, in order. On failure, the error is the first bad row's own error, and no partial list is returned. A file without a header is a 520 error. |
| `Settings.Missing` | DataBase.py:468 | The missing list holds exactly the required names absent from the section, in the required-list order. |
| `Settings.FirstNonInteger` | DataBase.py:471-475 | Gives the first key whose value is not an integer literal, or none when all of them are. |
| `Settings.ReadConfig` | DataBase.py:462-490 | The configuration is accepted exactly when there is one section, all seven options are present, the first five and `points` are integers, `debug` is a boolean token and hard + medium + easy equals questions_amount. |
| `Settings.Convert` | DataBase.py:471-486 | With every option present, conversion succeeds exactly when the first five options and `points` are integers, the quotas add up and `debug` is a boolean token. |
| `Settings.Assemble` | DataBase.py:476-486 | With the first five options known to be integers, the dictionary is built exactly when the quotas add up, `points` is an integer and `debug` is a boolean token. |
| `Settings.ReadConfigValues` | DataBase.py:478-486 | An accepted configuration holds each option as `getint` or `getboolean` converts it, and its quotas add up to questions_amount. |
| `Settings.ReadConfigErrors` | DataBase.py:465-477 | Which failure is reported, in check order: section count, then missing options, then integer type of the first five, then the quota sum, then `points`/`debug` as code 520. The 520 case is reached only after the quota check passed. |
| `Settings.MissingReported` | DataBase.py:467-470 | A missing-options error lists every absent required option once, in order, and nothing else. |
| `Settings.InvalidTypeReported` | DataBase.py:471-475 | A type error names the first of the five checked options whose value is not an integer. |
| `Generator.ExcludedTitles` | DataBase.py:573 | Fails (code 520) exactly when the exclusion list is empty. Otherwise every excluded title is comma-free and already stripped. |
| `Generator.StoredExclusions` | DataBase.py:573 | Comma-joined stripped titles in the first entry are read back as exactly those titles. |
| `Generator.LaterEntriesIgnored` | DataBase.py:573 | Whatever entries follow the first in the exclusion list, the excluded titles are those of the first entry alone. |
| `Generator.OnlyFirstTitleExcluded` | DataBase.py:654-659 | When the list from `get_excluded_titles` is passed on, whatever the user's stored text, the only excluded title is its first comma-separated piece, stripped; so a stored `Loops, Arrays` excludes only `Loops`. A user without a record gets an empty list, which fails with code 520. |
| `Generator.Filter` | DataBase.py:576 | The pool keeps, with their multiplicities and in catalog order, exactly the questions whose title is not excluded. |
| `Generator.FilterMembers` | DataBase.py:576 | Every pool question is in the catalog and has a title that is not excluded. |
| `Generator.TallyAppend` | DataBase.py:594 | Counting one more question of some level bumps exactly that level's count. |
| `Generator.TallyTotal` | DataBase.py:606 | When every difficulty is a level name, the three counts add up to the number of questions. |
| `Generator.Rejected` | DataBase.py:591 | A rejected draw leaves position `i` unfilled and keeps every running invariant of the attempt. |
| `Generator.Accepted` | DataBase.py:591-599 | An accepted draw keeps the attempt's invariants: exam appended, score added, difficulty counted, title recorded once, question popped. Position `i` holds `i`'s target whenever all earlier positions were filled. |
| `Generator.FillPosition` | DataBase.py:589-599 | With `k` the drawn index `draw` modulo the pool size and `q` the question there, one position has three outcomes:<br>- `q` already in the exam, or off the position's target: nothing changes;<br>- `q` new and on target with a parsable score: `q` is appended, its score added, its difficulty counted, its title recorded if new, and it is popped from index `k`;<br>- `q` new and on target with an unparsable score: `int()` raises, code 520.<br>The result equals `Step`, the function the loop's lemmas are stated over. |
| `Generator.RunConsistent` | DataBase.py:579-599 | Whatever the draws, an attempt that runs through keeps the invariants below, and it fails only when the pool holds a question whose score does not parse. |
| `Generator.FillPositions` | DataBase.py:579-599 | The attempt is exactly `RunAttempt` of the draws, the recursive loop that stops at questions_amount, when the pool is empty, or when a step raises. After an attempt these invariants hold:<br>- at most questions_amount questions;<br>- total_points is the sum of their scores;<br>- the counts are those of their difficulties;<br>- the titles are exactly the exam's titles, each once;<br>- no duplicate question;<br>- the pool lost exactly the exam's questions;<br>- a full exam has every position's target difficulty.<br>A failure is code 520 from an unparsable score. An attempt with no positions is empty. |
| `Generator.Concluded` | DataBase.py:579-599 | Whether the loop ends early (empty pool) or not, the attempt's totals satisfy the invariants above. |
| `Generator.SearchExhausted` | DataBase.py:559-619 | The supplied attempts run out exactly when every one of them is thrown away: it is short of questions_amount, or it has questions and misses the points or the title check. |
| `Generator.SearchFirstPassing` | DataBase.py:601-621 | When every attempt before attempt `j` is thrown away and attempt `j` passes the count, points and title checks, attempt `j`'s exam is the one returned. |
| `Generator.GenerateExam` | DataBase.py:559-623 | An empty catalog fails with code 500 and an empty exclusion list with code 520. Otherwise the outcome is `Search` over the attempts: the first attempt that is not thrown away decides it. Other failures come only from an unparsable score. questions_amount 0 returns `(None, 0, {})`. A returned exam is filtered from the full catalog, and has exactly questions_amount questions, the required points and every position's target difficulty. Its titles are listed once each and number at least minimum_titles. No question repeats. `BudgetExhausted` means every supplied attempt was thrown away. |
| `Generator.EmptyAttempt` | DataBase.py:602-608 | A full attempt has zero counted difficulties exactly when questions_amount is 0, and then it scored 0 points. |
| `Generator.AttemptAccepted` | DataBase.py:601-621 | An attempt that passes the count, points and title checks satisfies everything a returned exam promises, and uses each pool question at most once. |
| `Generator.TargetsTally` | DataBase.py:582-587 | Over positions 0 .. k-1, the targets count Hard for positions below hard, Medium for those from hard up to hard + medium, and Easy for the rest. |
| `Generator.ExamCounts` | DataBase.py:582-594 | An exam whose every position holds its target difficulty, as a returned exam does, has the quota counts. With non-negative quotas that sum to questions_amount, they are exactly hard, medium and easy. |
| `Generator.DistinctCard` | DataBase.py:597-599 | A duplicate-free list has as many elements as its set. |
| `Generator.ExamTitles` | DataBase.py:596-616 | The length of total_titles equals the exam's number of distinct titles, so a returned exam covers at least minimum_titles of them. |
| `Generator.ExamExcludes` | DataBase.py:573-576 | No question of an exam drawn from the filtered pool, a returned exam included, has an excluded title, and each comes from the catalog. |
| `Generator.LoadedCatalogScored` | DataBase.py:410-421 | Every entry that the catalog loader accepted has a score that `int()` parses, so generating from a loaded catalog never fails on a score. |

## Left out

- File I/O. Opening `Test.csv` (with its 404 file-not-found error) and `db.config`, and the CSV and INI parsing, are not modelled: the model starts from rows and sections.
- `read_config`'s 404 branch (DataBase.py:487-488) cannot be reached: `ConfigParser.read` skips a file it cannot open. A missing `db.config` has no sections, which the model reports as the 400 "exactly one section" error.
- The re-read of `Test.csv` when the catalog is empty. The model treats it as failing, which returns the 500 error.
- Multi-line quoted CSV records: the reported line number is the row index plus one.
- `difficulty_ratios`: floating point. The exam returns the integer counts they are computed from.
- `random.randint`: replaced by supplied draws, as described above.
- The unbounded restart loop: bounded by the supplied attempts (`BudgetExhausted`).
- Python `int()` details: underscores in digit groups and non-ASCII digits are not accepted. Only ASCII case is folded for the boolean tokens.
- `Errors.Exception.Text`: the text of an `int()` failure quotes the literal between plain single quotes. Python uses its `repr`, which escapes quotes, backslashes and control characters, so those characters are not modelled.
- ConfigParser interpolation: `config.get` expands `%` references. A stray `%` in an option raises InterpolationSyntaxError, which the source reports as code 520; the model treats option texts literally and reports `InvalidType` (400) for a non-integer.
- ConfigParser's DEFAULT section: its options are merged into every section's `options()`. The model takes a section's options as given.
- `UserManager`, apart from the split-and-strip of `get_excluded_titles` (DataBase.py:314-318), which `UserExclusions` models. Its sqlite lookup and its error path (DataBase.py:321-322) are not modelled: the user store is outside the engine.
- `create_db_initial`, `create_excel_from_txt`, `read_api`, `database_thread`, the file-writing part of `exam_generator`: persistence, spreadsheet export and dispatch, not part of the engine.
- The splitting of `LIST … && code` texts in `flask_server.py`: presentation glue. The model keeps errors as a datatype.
