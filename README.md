# cronberry, modelled in Dafny

cronberry keeps named cron jobs inside a user's crontab. Each job is written as a
block of two lines:

    # [<title>]
    <timing> <command>

Blocks are separated by an empty line. The library parses the crontab back into jobs
by matching the regular expression `^# \[(.*)]\n(.*)$` line by line. It adds,
replaces, removes or clears jobs by title, and re-renders the whole table.

This project models two parts of that library. The first is the timing grammar of
`cronberry/fields.py`:

- shorthand literals such as `@daily`;
- field items: `*`, a number, a range `a-b`, a step `a/b`;
- comma lists;
- a five-field explicit timing, with its rendering and its equality.

The second is the job and crontab logic of `cronberry/__init__.py`:

- parsing one `timing command` line into a job;
- rendering a job;
- parsing a whole crontab text into jobs;
- `add_cronjobs`, `remove_cronjobs`, `overwrite_crontab`, `clear_cronjobs` and `_update_crontab`.

Modules:

- `Results` (results.dfy): `Option` and `Result`.
- `Text` (text.dfy): the Python string operations the code relies on.
  - `str.split(sep)` is `Split`; `sep.join` is `Join`; `str.partition` is `Partition`.
  - Whitespace `str.split()` is `Words`. It uses the characters for which Python's `str.isspace` holds.
  - `int()` on a decimal field is `ParseNat`; `str()` of a number is `NatToString`.
- `Fields` (fields.dfy): the values of fields.py.
  - A field item is `Item = Wildcard | Exact | Range | Step`. `None` is the wildcard.
  - `Shorthand` with its literal lookup.
  - `ExplicitTiming` with its five item lists.
  - The two string forms of an item: Python's `str(...)` is `Str`, and `_cron_str` is `CronStr`.
  - Item, field and timing equality, both as written and as intended.
- `CronJob` (cronjob.dfy): `_parse_discrete_value`, `parse_cron_text`, `from_job` and `to_job`.
  - Each is a function, plus a method that carries the source's loop.
  - The module also proves round trips and the shape of what the parser produces.
- `Titled` (titled.dfy): the `{title: job}` dictionaries.
  - A dictionary is a sequence of jobs in insertion order.
  - Storing a job replaces an existing entry in place, or appends.
  - It defines `update`, the dictionary comprehension and `del`.
- `Crontab` (crontab.dfy): the crontab-level operations.
  - Reading the crontab becomes a text parameter.
  - Writing it becomes the returned text.
  - Each `raise` becomes an `Err` of `CronError`.

What the code does with crontab contents:

- A block is two lines: a title line `# [title]` and the job line after it. Every other line is ignored, and is lost when the table is written back.
- The shorthands are exactly the six values of `ShorthandSyntax`; `@monthly` is not one of them.
- Duplicate titles in the crontab make `add_cronjobs` fail. `remove_cronjobs` collapses them, and the last job with a title wins. `overwrite_crontab` ignores the existing crontab and keeps the last job of each duplicated incoming title.

## Model

| member | source | states |
|---|---|---|
| Text.Split | cronberry/__init__.py:94 | `s.split(sep)` returns at least one piece, and no piece holds the separator |
| Text.SplitJoin | cronberry/__init__.py:94 | joining the pieces of `s.split(sep)` with the separator gives `s` back |
| Text.SplitCount | cronberry/__init__.py:96-102 | the text holds the separator exactly when it splits into more than one piece |
| Text.SplitOfJoin | cronberry/__init__.py:94 | splitting a join of separator-free pieces gives the pieces back |
| Text.Partition | cronberry/__init__.py:78 | the part before holds no separator. Without a separator, the result is (text, "") |
| Text.PartitionJoin | cronberry/__init__.py:78 | with a separator present, before + separator + after is the text |
| Text.PartitionRestWithout | cronberry/__init__.py:78 | the part after the separator holds no character the text lacks |
| Text.WordsOfJoin | cronberry/__init__.py:72 | whitespace-splitting a single-space join of non-empty, whitespace-free words gives those words back |
| Text.SingleSpacedIff | cronberry/__init__.py:72-73 | `" ".join(s.split())` is always single-spaced, and it equals `s` exactly when `s` is single-spaced |
| Text.NatToString | cronberry/fields.py:12-14 | `str(n)` is a non-empty digit string with value `n` and no leading zero |
| Text.ParseNatOfString | cronberry/__init__.py:110 | `int(str(n)) == n` for every non-negative `n` |
| Fields.FromLiteral | cronberry/fields.py:17-25 | a shorthand found by value has that value as its literal |
| Fields.FromLiteralExact | cronberry/fields.py:17-25 | the lookup succeeds exactly for the six literals `@hourly`, `@daily`, `@weekly`, `@annually`, `@yearly` and `@reboot` |
| Fields.NoMonthly | cronberry/fields.py:17-25 | `@monthly` is not a shorthand |
| Fields.LiteralShape | cronberry/fields.py:17-25 | every literal starts with `@` and holds no whitespace |
| Fields.NotALiteral | cronberry/fields.py:17-25 | a text that is empty or does not start with `@` is never taken for a shorthand |
| Fields.Str | cronberry/fields.py:47-49 | `str` of an item: `None` for the wildcard, decimal digits for an integer, `a-b` for a range and `d/f` for a step (the step's `__str__` at fields.py:64-66); its characters are bounded by `ItemChars` |
| Fields.CronStr | cronberry/fields.py:12-14 | `_cron_str`: `*` for the wildcard, `str` of anything else; its inverse on canonical items is `CronJob.ItemRoundTrip` |
| Fields.ExplicitText | cronberry/fields.py:100-109 | `ExplicitTiming.__str__`: the five comma-joined fields separated by single spaces; `RenderedPieces` proves it splits back into them |
| Fields.ItemChars | cronberry/fields.py:47-66 | both string forms of an item use only digits, `*`, `-`, `/` and the letters of `None` |
| Fields.FieldTextChars | cronberry/fields.py:104-108 | a rendered field holds no whitespace and no `@` |
| Fields.FieldPieces | cronberry/fields.py:104-108 | a rendered non-empty field splits at commas into its items' cron strings |
| Fields.RenderedPieces | cronberry/fields.py:100-109 | the rendered timing splits at spaces into exactly the five field texts, in order. Each field text splits at commas into its items' cron strings |
| Fields.ItemEq | cronberry/fields.py:41-62 | `==` on items, with the `ValueRange` and `StepValues` `__eq__`: same kind and equal components; `ItemEqIsStructural` proves it is structural equality |
| Fields.ItemEqIsStructural | cronberry/fields.py:41-62 | item equality holds exactly for identical items. This covers `None`, integers, and the range and step `__eq__` |
| Fields.FieldEqIsStructural | cronberry/fields.py:92-95 | field equality, element by element, holds exactly for equal item lists |
| Fields.ExplicitEqAsWritten | cronberry/fields.py:88-98 | `ExplicitTiming.__eq__` as written, day of week compared with itself; its meaning is `ExplicitEqAsWrittenMeaning` |
| Fields.ExplicitEqAsWrittenMeaning | cronberry/fields.py:88-98 | as written, two timings are equal exactly when minute, hour, day of month and month are equal, whatever the days of week |
| Fields.DayOfWeekIgnored | cronberry/fields.py:96 | two timings that differ only in the day of week (`[1]` against `[2]`) are called equal |
| Fields.ExplicitEqIsStructural | cronberry/fields.py:88-98 | the intended comparison of all five fields holds exactly for equal timings |
| CronJob.PairOf | cronberry/__init__.py:96-105 | a parsed `a/b` is a step and a parsed `a-b` is a range |
| CronJob.ItemsOf | cronberry/__init__.py:95-116 | a successful parse gives one value per comma-separated item |
| CronJob.ItemsOfFailure | cronberry/__init__.py:108-114 | the first item that fails to parse decides the error of the whole field |
| CronJob.FieldOfOneItem | cronberry/__init__.py:94-116 | a field without a comma parses exactly as its single item does, to a one-element list or to the same error |
| CronJob.ItemOf | cronberry/__init__.py:96-114 | one comma piece of `_parse_discrete_value`: a step when `/` is present, else a range when `-` is, else `*` or an integer, with the error for each failure; `ItemOfShape` and `ItemRoundTrip` state its properties |
| CronJob.FieldOf | cronberry/__init__.py:91-116 | `_parse_discrete_value`: the items of the comma pieces, or the first piece's error; `FieldOfShape` and `FieldRoundTrip` state its properties |
| CronJob.ParseDiscreteValue | cronberry/__init__.py:91-116 | the loop over the comma-separated items gives the field parse |
| CronJob.ParseListValue | cronberry/__init__.py:96-114 | the branch on `/`, then `-`, then `*`, then an integer gives the item parse |
| CronJob.ItemOfShape | cronberry/__init__.py:96-114 | parsed items are built only from the parser's branches. Without `/` no step appears; without `/` or `-` no range or step appears |
| CronJob.FieldOfShape | cronberry/__init__.py:91-116 | a parsed field is a non-empty list of parser-built items |
| CronJob.RangeText | cronberry/fields.py:47-49 | a range's Python string parses back to the range exactly when both ends are numbers. A wildcard end renders as `None`, which fails |
| CronJob.ParsedText | cronberry/fields.py:12-14 | a parser-built item's cron string parses back to it exactly when the item is canonical |
| CronJob.ItemRoundTrip | cronberry/fields.py:12-14 | for any item, parsing its cron string gives the item back exactly when the item is canonical |
| CronJob.FieldRoundTrip | cronberry/fields.py:104-108 | a rendered field of canonical items parses back to the same list |
| CronJob.FieldsOf | cronberry/__init__.py:77-80 | taking `k` fields succeeds with exactly `k` item lists |
| CronJob.FieldsOfFailure | cronberry/__init__.py:77-80 | once a field fails, taking more fields gives the same error |
| CronJob.FieldsOfShape | cronberry/__init__.py:77-80 | every field taken from a line is a non-empty list of parser-built items |
| CronJob.FieldsOfRendered | cronberry/__init__.py:77-80 | partitioning a rendered field sequence followed by a command gives back the fields one by one, and the rest of the text |
| CronJob.EmptyComponentFails | cronberry/__init__.py:77-80 | after any number of fields below five, a remainder that is empty or starts with a space makes the next component empty, and the five-field parse fails on `int("")` |
| CronJob.EmptyComponentTiming | cronberry/__init__.py:67-82 | a line that is no shorthand and holds two spaces in a row, or runs out, among its five fields fails with that error as a whole |
| CronJob.FieldsRunOut | cronberry/__init__.py:77-80 | when the text runs out before five fields are taken, the five-field parse fails on an empty component |
| CronJob.DoubledSpaceFails | cronberry/__init__.py:77-80 | the instance of `EmptyComponentTiming` for a first field followed by two spaces: the parse fails on the empty second component |
| CronJob.DoubledSpaceExample | cronberry/__init__.py:78 | `0  * * * x` fails, because a doubled space yields an empty field |
| CronJob.TimingOf | cronberry/__init__.py:67-82 | `parse_cron_text`: a shorthand with its re-spaced command, or five fields and the rest of the line; `TimingOfShape` and `TimingRoundTrip` state its properties |
| CronJob.ParseCronText | cronberry/__init__.py:67-82 | the shorthand try, then the five-field fallback, gives the timing parse |
| CronJob.TimingOfShape | cronberry/__init__.py:67-82 | a shorthand line's command comes out single-spaced. An explicit line's five fields are non-empty lists of parser-built items |
| CronJob.ShortRoundTrip | cronberry/__init__.py:69-73 | a shorthand literal followed by a single-spaced command parses back to that shorthand and command |
| CronJob.ExplicitRoundTrip | cronberry/__init__.py:74-81 | a rendered explicit timing of canonical fields followed by any command parses back to that timing and command |
| CronJob.TimingRoundTrip | cronberry/__init__.py:118-124 | the timing text of `to_job` followed by a command parses back when the timing is canonical and, for a shorthand, the command is single-spaced |
| CronJob.JobOf | cronberry/__init__.py:84-88 | `from_job`: the parsed timing and command under the given title; `JobRoundTrip` is its inverse |
| CronJob.ToJob | cronberry/__init__.py:118-124 | `to_job`: the shorthand's value or `str` of the explicit timing, and the command; `JobRoundTrip` proves `from_job` undoes it |
| CronJob.FromJob | cronberry/__init__.py:84-88 | `from_job` gives the job parse, and a parsed job carries the given title |
| CronJob.JobRoundTrip | cronberry/__init__.py:84-124 | `from_job` of a job's rendered line and its title gives the job back when it is canonical |
| CronJob.TimingTextOneLine | cronberry/__init__.py:118-124 | the timing text never holds a newline |
| CronJob.JobLineOneLine | cronberry/__init__.py:201 | a job line holds no newline when its command holds none |
| CronJob.JobEq | cronberry/__init__.py:55-64 | `CronJob.__eq__`: equal titles, timings under the timing `__eq__`, and equal commands; `JobEqMeaning` states what that amounts to |
| CronJob.JobEqMeaning | cronberry/__init__.py:55-64 | job equality holds for equal jobs. Beyond that it needs equal titles and commands, and only the first four fields of explicit timings |
| CronJob.JobEqIntendedIsStructural | cronberry/__init__.py:55-64 | with the corrected timing equality, job equality holds exactly for equal jobs |
| CronJob.StepOverRangeExample | cronberry/__init__.py:96-105 | `3-45/3` parses as a step over a range and renders back to the same text |
| CronJob.NotAnItemExample | cronberry/__init__.py:108-114 | `#42` is rejected as an unparsable component |
| CronJob.EmptyItemExample | cronberry/__init__.py:108-114 | an empty component is rejected |
| CronJob.WildcardRangeExample | cronberry/__init__.py:101-107 | `*-5` parses as a range from the wildcard to 5 |
| CronJob.WildcardRangeLost | cronberry/fields.py:47-49 | that range renders as `None-5`, which does not parse |
| CronJob.DoubleStepExample | cronberry/__init__.py:97 | `1/2/3` fails the two-way unpacking of the step |
| CronJob.DoubleRangeExample | cronberry/__init__.py:102 | `1-2-3` fails the two-way unpacking of the range |
| Titled.TitleSetSize | cronberry/__init__.py:155-162 | the title set is never larger than the job list, and it has the same size exactly when the titles are distinct |
| Titled.Lookup | cronberry/__init__.py:185 | a title is found exactly when some job carries it, and the job found carries that title |
| Titled.Put | cronberry/__init__.py:172-174 | `d[title] = job`: replaces the job of an existing title in place, or appends; `PutTitles` and `PutLookup` state its properties |
| Titled.PutTitles | cronberry/__init__.py:172-174 | storing a job keeps the key order and appends a new title at the end |
| Titled.PutLookup | cronberry/__init__.py:172-174 | after storing a job, its title maps to it and every other title maps as before |
| Titled.UpdateAll | cronberry/__init__.py:174 | `dict.update` with the jobs of a list, one store per job in order; `UpdateAllTitles` and `UpdateAllLookup` state its properties |
| Titled.Collapse | cronberry/__init__.py:172-173 | the comprehension `{job.title: job for job in jobs}`, as an update of the empty dictionary; `CollapseShape` states its properties |
| Titled.Update | cronberry/__init__.py:174 | the loop that stores the source jobs one by one gives `dict.update` |
| Titled.FirstOccurrences | cronberry/__init__.py:172-174 | the key order of a merged dictionary is distinct and has the same titles |
| Titled.UpdateAllTitles | cronberry/__init__.py:172-174 | the merged keys are the first occurrences of the destination titles followed by the source titles |
| Titled.UpdateAllLookup | cronberry/__init__.py:172-174 | after the merge, a source title maps to the last source job with it, and every other title maps as in the destination |
| Titled.UpdateAllDisjoint | cronberry/__init__.py:172-174 | merging distinct source jobs with new titles appends them in order |
| Titled.CollapseShape | cronberry/__init__.py:182 | the comprehension keeps first-occurrence key order, maps each title to its last job, and leaves distinct-titled lists unchanged |
| Titled.WithoutTitles | cronberry/__init__.py:184-189 | after removing names, exactly the titles not named remain, and distinctness is kept |
| Titled.WithoutOnly | cronberry/__init__.py:189 | removing a title that only the entry at `i` holds cuts out exactly that entry |
| Titled.OnlyAt | cronberry/__init__.py:189 | in a dictionary with distinct titles, the entry at `i` is the only one with its title |
| Titled.Delete | cronberry/__init__.py:189 | `del d[title]` for a present title; `DeleteIsWithout` states what it removes |
| Titled.DeleteIsWithout | cronberry/__init__.py:189 | `del` of a present title is the removal of that name |
| Titled.DeleteEach | cronberry/__init__.py:184-189 | the loop of presence checks and `del`, stopping at the first name missing; `DeleteEachMeaning` states its outcome |
| Titled.DeleteEachError | cronberry/__init__.py:184-189 | when the `del` loop fails, its error is the first name, in input order, that is not a title or was deleted already |
| Titled.DeleteEachMeaning | cronberry/__init__.py:184-189 | the `del` loop succeeds exactly when the names are distinct and all present, and it leaves the unnamed jobs. Otherwise its error is the first name, in input order, that is absent or already deleted |
| Crontab.Matches | cronberry/__init__.py:24 | `re.findall` of the block pattern over the lines: a title line `# [t]` followed by the next line, scanning on past both; `MatchesOfTable` and `MatchesOneLine` state its properties |
| Crontab.JobsOf | cronberry/__init__.py:143-147 | a successful conversion of matches gives one job per match |
| Crontab.JobsOfFailure | cronberry/__init__.py:144-147 | the first match that fails to parse decides the error |
| Crontab.TableOf | cronberry/__init__.py:127-147 | `parse_crontab` on the crontab's text: the jobs of the matches, or the first parse error; `TableOfShape` and `TableRoundTrip` state its properties |
| Crontab.ParseCrontab | cronberry/__init__.py:139-147 | the regex scan and the loop over its matches give the table parse, with no jobs when nothing matches |
| Crontab.TableOfShape | cronberry/__init__.py:139-147 | one job per match, each with its match's title, and no title or command holds a newline |
| Crontab.MatchesOneLine | cronberry/__init__.py:24 | every match's title and job line are single lines |
| Crontab.CommandWithin | cronberry/__init__.py:67-82 | the command parsed from a one-line job text holds no newline |
| Crontab.TableText | cronberry/__init__.py:194-201 | the text `_update_crontab` writes: the blocks in order, a line break between two blocks; `TableTextLines` and `TableRoundTrip` state its properties |
| Crontab.UpdateCrontab | cronberry/__init__.py:194-201 | the rendering loop gives the blocks in order, separated by an empty line |
| Crontab.TableTextLines | cronberry/__init__.py:196-201 | the rendered table is its title, job and blank lines joined by newlines |
| Crontab.TitleLineOf | cronberry/__init__.py:24 | a rendered title line is a title line, and its title is read back |
| Crontab.MatchesOfTable | cronberry/__init__.py:24 | scanning the rendered lines finds exactly one match per job: its title and its job line |
| Crontab.TableRoundTrip | cronberry/__init__.py:127-201 | parsing a rendered table gives the same jobs in order, when every job is canonical and its title and command are single lines |
| Crontab.ClearCronjobs | cronberry/__init__.py:224-226 | clearing writes the empty text, which parses to no jobs |
| Crontab.OverwriteCrontab | cronberry/__init__.py:229-233 | the written text renders the collapsed dictionary of the given jobs |
| Crontab.OverwriteRoundTrip | cronberry/__init__.py:229-233 | the overwritten table parses back to the collapsed jobs. Its titles are the first occurrences, and each title holds the last job with it |
| Crontab.UpdateAllFrom | cronberry/__init__.py:172-174 | every merged job comes from the destination or the source |
| Crontab.Added | cronberry/__init__.py:150-176 | `add_cronjobs` on the crontab's text: the error of the first failing check, or the text written; `AddedOutcome` and `AddedShape` state its properties |
| Crontab.AddCronjobs | cronberry/__init__.py:150-176 | the parse, the duplicate checks, the overlap check and the merge give the outcome of adding, in the source's order of checks |
| Crontab.OverlapByDifference | cronberry/__init__.py:166 | `a != a.difference(b)` holds exactly when the sets share a member |
| Crontab.SharedTitles | cronberry/__init__.py:155-166 | the title sets meet exactly when some title is in both job lists |
| Crontab.AddedOutcome | cronberry/__init__.py:158-170 | with distinct titles on both sides, adding succeeds exactly when overwriting is on or no title is shared. Without a shared title, the result is the destination followed by the new jobs |
| Crontab.AddedShape | cronberry/__init__.py:172-176 | a successful add writes the merge of destination and source, with first-occurrence key order and last-wins values. It reads back as that merge when all jobs are writable |
| Crontab.Removed | cronberry/__init__.py:179-191 | `remove_cronjobs` on the crontab's text: the first error, or the text written; `RemovedOutcome` states its properties |
| Crontab.RemoveCronjobs | cronberry/__init__.py:179-191 | the comprehension and the `del` loop give the outcome of removing |
| Crontab.RemovedOutcome | cronberry/__init__.py:181-191 | removing succeeds exactly when the names are distinct and all in the table. It then writes the table without those jobs. Otherwise the error is `MissingTitle` of the first name, in input order, that is not a title of the table or was deleted already |

## Left out

- Reading and installing the crontab are left out: `crontab -l`, the file read, the temporary file and the `crontab <file>` call. A read becomes a text parameter and a write becomes the returned text. The `OSError` raised when installing fails is therefore not modelled.
- `filepath` selection is left out, since both branches only choose where the text comes from or goes.
- The `print` of the dictionary in `overwrite_crontab` is left out, since it is output only.
- `CronJob.reduce` raises `NotImplementedError` and is not modelled. `__repr__` and `CronJob.__str__` are not used by the core and are not modelled.
- `int()` is modelled on ASCII decimal digits only. Python also accepts a sign, surrounding whitespace, underscores between digits and non-ASCII digits. A space never reaches `int()` through the line parser, because fields are cut at spaces. A tab, a sign or an underscore can: `0\t * * * * cmd`, `+5` or `1_0` parse in Python and are rejected by the model with `NotAnInteger`. The reverse also happens: recent Python versions refuse `int()` and `str()` of more than 4300 digits with `ValueError`, which the parser reports as an unparseable component, while `Text.ParseNat` and `Text.NatToString` are unbounded, so such a field parses in the model.
- Negative numbers are not modelled. The parser never produces one, because a `-` always takes the range branch.
- The regular expression is modelled for this one pattern at line level, not as general regex semantics. A title line starts with `# [` and ends with `]`, and the next line is the job line.
- Jobs are values. Assigning a job's attributes after construction, and aliasing between jobs, are not modelled; the core never does either.
- `len(jobs)` of an arbitrary iterable is modelled on a sequence. A one-shot iterator, which the source would exhaust in the set comprehension, is not modelled.
- Crontab.TableRoundTrip requires every title and command to be a single line, because a newline inside either changes which lines the pattern matches. It also requires every timing to be canonical: a wildcard range end renders as `None`.
- CronJob.ShortRoundTrip requires a single-spaced command, because the shorthand branch re-joins the command's words with single spaces.
- The command-line interface of cronberry is not part of this model.

## Findings

| source | as written | input that shows it | evidently intended | confidence | as-written member | corrected member |
|---|---|---|---|---|---|---|
| cronberry/fields.py:96 | the day of week is compared with itself (`self.day_of_week == self.day_of_week`) | two explicit timings equal in minute, hour, day of month and month, with days of week `[1]` and `[2]`, compare equal | compare `self.day_of_week == other.day_of_week` | not executed | Fields.DayOfWeekIgnored | Fields.ExplicitEqIsStructural |
