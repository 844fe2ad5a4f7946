/** The crontab as text: reading its titled blocks (`parse_crontab`), writing them
    (`_update_crontab`), and the operations that read the table, change its entries and
    write it again (`add_cronjobs`, `remove_cronjobs`, `clear_cronjobs`,
    `overwrite_crontab`). The current crontab comes in as text and the crontab to
    install goes out as text. */
module Crontab {
  import opened Results
  import opened Text
  import opened Fields
  import opened CronJob
  import opened Titled

  /** What an operation on the table raises. */
  datatype CronError =
    | ParseFailure(cause: ParseError)  // ValueError: a job line of the table does not parse
    | DuplicateIncoming                // ValueError: the jobs to add repeat a title
    | DuplicateInTable                 // RuntimeError: the table already repeats a title
    | TitlesTaken                      // ValueError: a title to add is in the table already
    | MissingTitle(name: string)       // ValueError: a title to remove is not in the table

  // ---------------------------------------------------------------------------
  // Reading the table (`parse_crontab`)
  // ---------------------------------------------------------------------------

  /** A line the block pattern takes as a title line: `# [`, then anything, and `]` as
      the line's last character. */
  predicate IsTitleLine(line: string)
  {
    |line| >= 4 && line[..3] == "# [" && line[|line| - 1] == ']'
  }

  /** The title of a title line: the text between `# [` and the final `]`. */
  function TitleOf(line: string): string
    requires IsTitleLine(line)
  {
    line[3..|line| - 1]
  }

  /** The matches of the block pattern (`^# \[(.*)]\n(.*)$`, multi-line) over the lines
      of a text, each a title and the job line after it. The scan goes down the lines:
      a title line with a line after it is a match and the scan resumes after that
      line; any other line is skipped. */
  function Matches(lines: seq<string>): seq<(string, string)>
  {
    if |lines| < 2 then []
    else if IsTitleLine(lines[0]) then [(TitleOf(lines[0]), lines[1])] + Matches(lines[2..])
    else Matches(lines[1..])
  }

  /** The jobs of a list of matches, parsed in order; the first job line that does not
      parse gives the error. */
  function JobsOf(ms: seq<(string, string)>): (r: Result<seq<Job>, ParseError>)
    ensures r.Ok? ==> |r.value| == |ms|
  {
    if ms == [] then Ok([])
    else
      var n := |ms| - 1;
      match JobsOf(ms[..n])
      case Err(e) => Err(e)
      case Ok(js) =>
        match JobOf(ms[n].1, ms[n].0)
        case Err(e) => Err(e)
        case Ok(j) => Ok(js + [j])
  }

  /** Parsing one more match after the first `i` parsed to `js`. */
  lemma JobsOfNext(ms: seq<(string, string)>, i: nat, js: seq<Job>)
    requires i < |ms| && JobsOf(ms[..i]) == Ok(js)
    ensures JobsOf(ms[..i + 1]) ==
      match JobOf(ms[i].1, ms[i].0)
      case Err(e) => Err(e)
      case Ok(j) => Ok(js + [j])
  {
    Text.TakeTake(ms, i);
  }

  /** A failure among the first `j` matches is the failure of them all. */
  lemma {:induction false} JobsOfFailure(ms: seq<(string, string)>, j: nat)
    requires j <= |ms| && JobsOf(ms[..j]).Err?
    ensures JobsOf(ms) == JobsOf(ms[..j])
    decreases |ms| - j
  {
    if j < |ms| {
      Text.TakeTake(ms, j);
      JobsOfFailure(ms, j + 1);
    } else {
      assert ms[..j] == ms;
    }
  }

  /** The jobs of a crontab's text: one per match, in file order. */
  function TableOf(text: string): Result<seq<Job>, ParseError>
  {
    JobsOf(Matches(Split(text, '\n')))
  }

  /** `parse_crontab` on the crontab's text: the job of each match in order, or the
      error of the first job line that does not parse. */
  method ParseCrontab(text: string) returns (r: Result<seq<Job>, ParseError>)
    ensures r == TableOf(text)
  {
    var reMatches := Matches(Split(text, '\n'));
    if reMatches == [] {
      return Ok([]);
    }
    var jobs: seq<Job> := [];
    var i := 0;
    while i < |reMatches|
      invariant 0 <= i <= |reMatches|
      invariant JobsOf(reMatches[..i]) == Ok(jobs)
    {
      var job := FromJob(reMatches[i].1, reMatches[i].0);
      JobsOfNext(reMatches, i, jobs);
      if job.Err? {
        JobsOfFailure(reMatches, i + 1);
        return Err(job.error);
      }
      jobs := jobs + [job.value];
      i := i + 1;
    }
    assert reMatches[..i] == reMatches;
    r := Ok(jobs);
  }

  /** Every parsed job has the title of its match, and every title and command read from
      a text is a single line. */
  lemma {:induction false} TableOfShape(text: string)
    requires TableOf(text).Ok?
    ensures |TableOf(text).value| == |Matches(Split(text, '\n'))|
    ensures forall k :: 0 <= k < |TableOf(text).value| ==>
      TableOf(text).value[k].title == Matches(Split(text, '\n'))[k].0
    ensures forall j :: j in TableOf(text).value ==> '\n' !in j.title && '\n' !in j.command
  {
    var lines := Split(text, '\n');
    MatchesOneLine(lines);
    JobsOfShape(Matches(lines));
  }

  /** Matches over lines without line breaks have titles and job lines without them. */
  lemma {:induction false} MatchesOneLine(lines: seq<string>)
    requires forall k :: 0 <= k < |lines| ==> '\n' !in lines[k]
    ensures forall k :: 0 <= k < |Matches(lines)| ==>
      '\n' !in Matches(lines)[k].0 && '\n' !in Matches(lines)[k].1
    decreases |lines|
  {
    if |lines| >= 2 {
      if IsTitleLine(lines[0]) {
        MatchesOneLine(lines[2..]);
        var line := lines[0];
        assert forall i :: 0 <= i < |TitleOf(line)| ==> TitleOf(line)[i] == line[i + 3];
      } else {
        MatchesOneLine(lines[1..]);
      }
    }
  }

  /** The parsed jobs carry the matches' titles, and their commands come from the job
      lines. */
  lemma {:induction false} JobsOfShape(ms: seq<(string, string)>)
    requires JobsOf(ms).Ok?
    requires forall k :: 0 <= k < |ms| ==> '\n' !in ms[k].0 && '\n' !in ms[k].1
    ensures forall k :: 0 <= k < |ms| ==> JobsOf(ms).value[k].title == ms[k].0
    ensures forall j :: j in JobsOf(ms).value ==> '\n' !in j.title && '\n' !in j.command
  {
    if ms != [] {
      var n := |ms| - 1;
      var front := ms[..n];
      assert forall k :: 0 <= k < n ==> front[k] == ms[k];
      JobsOfShape(front);
      var js := JobsOf(front).value;
      var j := JobOf(ms[n].1, ms[n].0).value;
      assert JobsOf(ms).value == js + [j];
      CommandWithin(ms[n].1);
      forall k | 0 <= k < |ms| ensures JobsOf(ms).value[k].title == ms[k].0 {
        if k < n {
          assert JobsOf(ms).value[k] == js[k];
        }
      }
      forall x | x in JobsOf(ms).value ensures '\n' !in x.title && '\n' !in x.command {
        if x != j {
          assert x in js;
        }
      }
    }
  }

  /** The command read from a job line has no character the line does not have. */
  lemma CommandWithin(jobText: string)
    requires '\n' !in jobText && TimingOf(jobText).Ok?
    ensures '\n' !in TimingOf(jobText).value.1
  {
    if FromLiteral(Split(jobText, ' ')[0]).Some? {
      RestOfWordsSingleSpaced(jobText);
      var command := TimingOf(jobText).value.1;
      if command != [] {
        SingleSpacedOneLine(command);
      }
    } else {
      FieldsOfRest(jobText, 5);
    }
  }

  /** A single-spaced text is a single line. */
  lemma SingleSpacedOneLine(s: string)
    requires SingleSpaced(s) && s != []
    ensures '\n' !in s
  {
    var parts := Split(s, ' ');
    SplitJoin(s, ' ');
    forall k | 0 <= k < |parts| ensures '\n' !in parts[k] {
      NoSpaceWithout(parts[k], '\n');
    }
    JoinWithout(parts, ' ', '\n');
  }

  /** The text left after the fields is the end of the job line. */
  lemma {:induction false} FieldsOfRest(text: string, n: nat)
    requires '\n' !in text && FieldsOf(text, n).Ok?
    ensures '\n' !in FieldsOf(text, n).value.1
  {
    if n > 0 {
      FieldsOfRest(text, n - 1);
      var (fs, rem) := FieldsOf(text, n - 1).value;
      var (comp, rest) := Partition(rem, ' ');
      PartitionRestWithout(rem, ' ', '\n');
      FieldsOfNext(text, n - 1, fs, rem, comp, rest, FieldOf(comp).value);
    }
  }

  // ---------------------------------------------------------------------------
  // Writing the table (`_update_crontab`)
  // ---------------------------------------------------------------------------

  /** The block of one job: its title line and its job line, each ended by a line break. */
  function Block(j: Job): string
  {
    "# [" + j.title + "]\n" + JobLine(j) + "\n"
  }

  /** The text of a table: the blocks in order, one more line break between two blocks;
      an empty table is the empty text. */
  function TableText(jobs: seq<Job>): string
  {
    if jobs == [] then ""
    else
      var n := |jobs| - 1;
      (if n == 0 then "" else TableText(jobs[..n]) + "\n") + Block(jobs[n])
  }

  /** The text of the first `i + 1` jobs: that of the first `i`, a line break when there
      were any, then the block of job `i`. */
  lemma TableTextSnoc(jobs: seq<Job>, i: nat)
    requires i < |jobs|
    ensures TableText(jobs[..i + 1]) ==
      (if i == 0 then "" else TableText(jobs[..i]) + "\n") + Block(jobs[i])
  {
    assert jobs[..i + 1][..i] == jobs[..i];
    assert jobs[..i + 1][i] == jobs[i];
  }

  /** `_update_crontab` without the write: the text written for the dictionary's jobs,
      in order. */
  method UpdateCrontab(jobs: seq<Job>) returns (tabtext: string)
    ensures tabtext == TableText(jobs)
  {
    tabtext := "";
    var index := 0;
    while index < |jobs|
      invariant 0 <= index <= |jobs|
      invariant tabtext == TableText(jobs[..index])
    {
      if index != 0 {
        tabtext := tabtext + "\n";
      }
      var job := jobs[index];
      var (cronTiming, cronCmd) := ToJob(job);
      var block := "# [" + job.title + "]\n" + cronTiming + " " + cronCmd + "\n";
      assert block == Block(job);
      TableTextSnoc(jobs, index);
      tabtext := tabtext + block;
      index := index + 1;
    }
    assert jobs[..index] == jobs;
  }

  /** The lines of a block: the title line, the job line and the empty line after them. */
  function BlockLines(j: Job): seq<string>
  {
    ["# [" + j.title + "]", JobLine(j), ""]
  }

  /** The lines of a table's text. */
  function TableLines(jobs: seq<Job>): seq<string>
  {
    if jobs == [] then [] else BlockLines(jobs[0]) + TableLines(jobs[1..])
  }

  /** One more job adds its block's lines at the end. */
  lemma {:induction false} TableLinesSnoc(jobs: seq<Job>, j: Job)
    ensures TableLines(jobs + [j]) == TableLines(jobs) + BlockLines(j)
  {
    if jobs == [] {
      assert TableLines([j]) == BlockLines(j) + TableLines([]);
    } else {
      TableLinesSnoc(jobs[1..], j);
      Text.ConsTail(jobs, [j]);
    }
  }

  /** A table's text is its lines joined with line breaks. */
  lemma {:induction false} TableTextLines(jobs: seq<Job>)
    requires jobs != []
    ensures TableText(jobs) == Join(TableLines(jobs), '\n')
  {
    var n := |jobs| - 1;
    var j := jobs[n];
    var blockLines := BlockLines(j);
    assert Join(blockLines, '\n') == Block(j) by {
      assert Join(blockLines[2..], '\n') == "";
      assert Join(blockLines[1..], '\n') == JobLine(j) + "\n";
    }
    assert jobs == jobs[..n] + [j];
    TableLinesSnoc(jobs[..n], j);
    if n == 0 {
      assert TableLines(jobs) == blockLines;
      assert TableText(jobs) == Block(j);
    } else {
      TableTextLines(jobs[..n]);
      JoinAppend(TableLines(jobs[..n]), blockLines, '\n');
    }
  }

  /** What a job needs for its block to read back as itself: a lossless timing and
      command, and a title and command that are single lines. */
  predicate Writable(j: Job)
  {
    LosslessJob(j) && '\n' !in j.title && '\n' !in j.command
  }

  /** The lines of a table of writable jobs hold no line break. */
  lemma {:induction false} TableLinesOneLine(jobs: seq<Job>)
    requires forall j :: j in jobs ==> Writable(j)
    ensures forall k :: 0 <= k < |TableLines(jobs)| ==> '\n' !in TableLines(jobs)[k]
  {
    if jobs != [] {
      assert jobs[0] in jobs;
      assert forall j :: j in jobs[1..] ==> j in jobs;
      TableLinesOneLine(jobs[1..]);
      JobLineOneLine(jobs[0]);
      var lines := TableLines(jobs);
      assert forall k :: 3 <= k < |lines| ==> lines[k] == TableLines(jobs[1..])[k - 3];
    }
  }

  /** The title line of a job is a title line with the job's title. */
  lemma TitleLineOf(title: string)
    ensures IsTitleLine("# [" + title + "]") && TitleOf("# [" + title + "]") == title
  {
    var line := "# [" + title + "]";
    assert line[..3] == "# [";
    assert line[3..|line| - 1] == title;
  }

  /** The matches in a table's lines are its jobs' titles and job lines, in order. */
  lemma {:induction false} MatchesOfTable(jobs: seq<Job>)
    ensures |Matches(TableLines(jobs))| == |jobs|
    ensures forall k :: 0 <= k < |jobs| ==>
      Matches(TableLines(jobs))[k] == (jobs[k].title, JobLine(jobs[k]))
  {
    if jobs != [] {
      var lines := TableLines(jobs);
      var rest := TableLines(jobs[1..]);
      MatchesOfTable(jobs[1..]);
      TitleLineOf(jobs[0].title);
      assert lines[2..] == [""] + rest;
      assert Matches([""] + rest) == Matches(rest) by {
        if rest != [] {
          assert ([""] + rest)[1..] == rest;
        }
      }
    }
  }

  /** Matches whose job lines each read back as the corresponding job give those jobs. */
  lemma {:induction false} JobsOfMatches(ms: seq<(string, string)>, jobs: seq<Job>)
    requires |ms| == |jobs|
    requires forall k :: 0 <= k < |ms| ==> JobOf(ms[k].1, ms[k].0) == Ok(jobs[k])
    ensures JobsOf(ms) == Ok(jobs)
  {
    if ms != [] {
      var n := |ms| - 1;
      var init := ms[..n];
      assert forall k :: 0 <= k < n ==> init[k] == ms[k];
      JobsOfMatches(init, jobs[..n]);
      assert JobOf(ms[n].1, ms[n].0) == Ok(jobs[n]);
      FrontLast(jobs);
    }
  }

  /** The matches in the lines of a table of writable jobs read back as those jobs. */
  lemma MatchesReadBack(jobs: seq<Job>)
    requires forall j :: j in jobs ==> Writable(j)
    ensures JobsOf(Matches(TableLines(jobs))) == Ok(jobs)
  {
    var ms := Matches(TableLines(jobs));
    MatchesOfTable(jobs);
    forall k | 0 <= k < |jobs| ensures JobOf(ms[k].1, ms[k].0) == Ok(jobs[k]) {
      assert jobs[k] in jobs;
      JobRoundTrip(jobs[k]);
    }
    JobsOfMatches(ms, jobs);
  }

  /** Writing a table and reading it back gives the same jobs, in the same order, when
      every job is writable. */
  lemma TableRoundTrip(jobs: seq<Job>)
    requires forall j :: j in jobs ==> Writable(j)
    ensures TableOf(TableText(jobs)) == Ok(jobs)
  {
    if jobs == [] {
      assert Split("", '\n') == [""];
    } else {
      TableTextLines(jobs);
      TableLinesOneLine(jobs);
      SplitOfJoin(TableLines(jobs), '\n');
      MatchesReadBack(jobs);
    }
  }

  // ---------------------------------------------------------------------------
  // The operations
  // ---------------------------------------------------------------------------

  /** `clear_cronjobs`: the text written for an empty dictionary, which reads as an empty
      table. */
  method ClearCronjobs() returns (text: string)
    ensures text == TableText([]) && text == ""
    ensures TableOf(text) == Ok([])
  {
    text := UpdateCrontab([]);
    assert Split(text, '\n') == [""];
  }

  /** `overwrite_crontab`: the text written for `{job.title: job for job in jobs}`. */
  method OverwriteCrontab(jobs: seq<Job>) returns (text: string)
    ensures text == TableText(Collapse(jobs))
  {
    var jobDict := Collapse(jobs);
    text := UpdateCrontab(jobDict);
  }

  /** Every job stored by `update` comes from the dictionary or from the new jobs. */
  lemma {:induction false} UpdateAllFrom(d: seq<Job>, src: seq<Job>)
    ensures forall j :: j in UpdateAll(d, src) ==> j in d || j in src
  {
    if src != [] {
      var n := |src| - 1;
      UpdateAllFrom(d, src[..n]);
      var u := UpdateAll(d, src[..n]);
      assert forall j :: j in Put(u, src[n]) ==> j in u || j == src[n];
    }
  }

  /** An overwritten crontab reads back as the jobs with each title once, at its first
      position and with its last job, when every job is writable. */
  lemma OverwriteRoundTrip(jobs: seq<Job>, t: string)
    requires forall j :: j in jobs ==> Writable(j)
    ensures TableOf(TableText(Collapse(jobs))) == Ok(Collapse(jobs))
    ensures Titles(Collapse(jobs)) == FirstOccurrences(Titles(jobs))
    ensures Lookup(Collapse(jobs), t) == if t in Titles(jobs) then Some(LastWith(jobs, t)) else None
  {
    UpdateAllFrom([], jobs);
    TableRoundTrip(Collapse(jobs));
    CollapseShape(jobs, t);
  }

  /** The outcome of `add_cronjobs` on the crontab's text: the checks in the order the
      original makes them, then the text written for the table's entries updated with
      the new jobs. */
  function Added(text: string, jobs: seq<Job>, overwrite: bool): Result<string, CronError>
  {
    match TableOf(text)
    case Err(e) => Err(ParseFailure(e))
    case Ok(dest) =>
      if !Distinct(Titles(jobs)) then Err(DuplicateIncoming)
      else if !Distinct(Titles(dest)) then Err(DuplicateInTable)
      else if TitleSet(dest) * TitleSet(jobs) != {} && !overwrite then Err(TitlesTaken)
      else Ok(TableText(UpdateAll(Collapse(dest), Collapse(jobs))))
  }

  /** `add_cronjobs`: the title-set sizes decide the duplicate checks, a set difference
      the overlap check, and the table's dictionary is updated with the new jobs'
      dictionary entry by entry before it is written. */
  method AddCronjobs(text: string, jobs: seq<Job>, overwrite: bool) returns (r: Result<string, CronError>)
    ensures r == Added(text, jobs, overwrite)
  {
    var destCrontab := ParseCrontab(text);
    if destCrontab.Err? {
      return Err(ParseFailure(destCrontab.error));
    }
    var dest := destCrontab.value;
    var destTitles := set j | j in dest :: j.title;
    var srcTitles := set j | j in jobs :: j.title;
    TitleSetSize(jobs);
    TitleSetSize(dest);
    if |srcTitles| != |jobs| {
      return Err(DuplicateIncoming);
    }
    if |destTitles| != |dest| {
      return Err(DuplicateInTable);
    }
    var hasOverlap := destTitles != destTitles - srcTitles;
    OverlapByDifference(destTitles, srcTitles);
    if hasOverlap && !overwrite {
      return Err(TitlesTaken);
    }
    var writeableJobs := Collapse(dest);
    var addJobs := Collapse(jobs);
    writeableJobs := Update(writeableJobs, addJobs);
    var tabtext := UpdateCrontab(writeableJobs);
    r := Ok(tabtext);
  }

  /** A title set changes when the other set is taken away exactly when the two meet. */
  lemma OverlapByDifference(a: set<string>, b: set<string>)
    ensures a != a - b <==> a * b != {}
  {
    if a * b != {} {
      var t :| t in a * b;
      assert t !in a - b;
    } else {
      forall t | t in a ensures t in a - b {
        assert t !in a * b;
      }
      assert a - b == a;
    }
  }

  /** Some title is in both lists exactly when their title sets meet. */
  lemma SharedTitles(a: seq<Job>, b: seq<Job>)
    ensures TitleSet(a) * TitleSet(b) != {} <==> exists t :: t in Titles(a) && t in Titles(b)
  {
    TitleSetMembers(a);
    TitleSetMembers(b);
    if TitleSet(a) * TitleSet(b) != {} {
      var t :| t in TitleSet(a) * TitleSet(b);
      assert t in Titles(a) && t in Titles(b);
    }
    if exists t :: t in Titles(a) && t in Titles(b) {
      var t :| t in Titles(a) && t in Titles(b);
      assert t in TitleSet(a) * TitleSet(b);
    }
  }

  /** On a table without repeated titles and new jobs without repeated titles, adding
      succeeds exactly when overwriting is on or no title is shared; when none is
      shared, the new jobs are written after the table's jobs. */
  lemma AddedOutcome(text: string, dest: seq<Job>, jobs: seq<Job>, overwrite: bool)
    requires TableOf(text) == Ok(dest)
    requires Distinct(Titles(dest)) && Distinct(Titles(jobs))
    ensures Added(text, jobs, overwrite).Ok? <==>
      overwrite || forall t :: t in Titles(jobs) ==> t !in Titles(dest)
    ensures (forall t :: t in Titles(jobs) ==> t !in Titles(dest)) ==>
      Added(text, jobs, overwrite) == Ok(TableText(dest + jobs))
  {
    SharedTitles(dest, jobs);
    CollapseShape(dest, "");
    CollapseShape(jobs, "");
    if forall t :: t in Titles(jobs) ==> t !in Titles(dest) {
      UpdateAllDisjoint(dest, jobs);
    }
  }

  /** A successful add writes the table's titles in their order followed by the new
      titles in input order, each new title with its new job and every other title with
      the table's job; when every job is writable, the written text reads back as
      exactly that table. */
  lemma AddedShape(text: string, dest: seq<Job>, jobs: seq<Job>, overwrite: bool, t: string)
    requires TableOf(text) == Ok(dest)
    requires Added(text, jobs, overwrite).Ok?
    ensures Added(text, jobs, overwrite) == Ok(TableText(UpdateAll(dest, jobs)))
    ensures Titles(UpdateAll(dest, jobs)) == FirstOccurrences(Titles(dest) + Titles(jobs))
    ensures Lookup(UpdateAll(dest, jobs), t) ==
      if t in Titles(jobs) then Some(LastWith(jobs, t)) else Lookup(dest, t)
    ensures (forall j :: j in dest + jobs ==> Writable(j)) ==>
      TableOf(Added(text, jobs, overwrite).value) == Ok(UpdateAll(dest, jobs))
  {
    CollapseShape(dest, t);
    CollapseShape(jobs, t);
    UpdateAllTitles(dest, jobs);
    UpdateAllLookup(dest, jobs, t);
    if forall j :: j in dest + jobs ==> Writable(j) {
      UpdateAllFrom(dest, jobs);
      TableRoundTrip(UpdateAll(dest, jobs));
    }
  }

  /** The outcome of `remove_cronjobs` on the crontab's text: the table's dictionary
      with the names deleted one by one, or the first name that is not (or no longer)
      in it. */
  function Removed(text: string, names: seq<string>): Result<string, CronError>
  {
    match TableOf(text)
    case Err(e) => Err(ParseFailure(e))
    case Ok(dest) =>
      match DeleteEach(Collapse(dest), names)
      case Err(name) => Err(MissingTitle(name))
      case Ok(rest) => Ok(TableText(rest))
  }

  /** `remove_cronjobs`: each name is checked against the dictionary and deleted from it,
      and the rest is written. */
  method RemoveCronjobs(text: string, jobNames: seq<string>) returns (r: Result<string, CronError>)
    ensures r == Removed(text, jobNames)
  {
    var destCrontab := ParseCrontab(text);
    if destCrontab.Err? {
      return Err(ParseFailure(destCrontab.error));
    }
    var currentJobs := Collapse(destCrontab.value);
    var i := 0;
    while i < |jobNames|
      invariant 0 <= i <= |jobNames|
      invariant DeleteEach(Collapse(destCrontab.value), jobNames) == DeleteEach(currentJobs, jobNames[i..])
    {
      var jobName := jobNames[i];
      if jobName !in Titles(currentJobs) {
        return Err(MissingTitle(jobName));
      }
      assert jobNames[i..][1..] == jobNames[i + 1..];
      currentJobs := Delete(currentJobs, jobName);
      i := i + 1;
    }
    var tabtext := UpdateCrontab(currentJobs);
    r := Ok(tabtext);
  }

  /** Removing from a table succeeds exactly when the names are distinct and all are
      titles of the table; it then writes every other job, each title once, in its
      order, and otherwise reports the first name that is not a title of the table or
      was deleted already. */
  lemma RemovedOutcome(text: string, dest: seq<Job>, names: seq<string>)
    requires TableOf(text) == Ok(dest)
    ensures Removed(text, names).Ok? <==>
      Distinct(names) && forall n :: n in names ==> n in Titles(dest)
    ensures Removed(text, names).Ok? ==>
      Removed(text, names).value == TableText(Without(Collapse(dest), names))
    ensures Removed(text, names).Err? ==>
      exists i: nat :: FirstMissing(Titles(dest), names, i)
        && Removed(text, names).error == MissingTitle(names[i])
  {
    var d := Collapse(dest);
    CollapseShape(dest, "");
    DeleteEachMeaning(d, names);
    if DeleteEach(d, names).Err? {
      var i: nat :| FirstMissing(Titles(d), names, i) && DeleteEach(d, names).error == names[i];
      FirstMissingSameTitles(Titles(d), Titles(dest), names, i);
    }
  }
}
