/**
 * The batch loop of `Main` (Program.cs lines 96-120) and the early exits around it.
 * For each input file, the loop reads the file, then synthesises the resolved male
 * voice and then the resolved female voice. Inside one file, the first exception
 * ends that file's `try` block. The `catch` reports the file and the loop goes on
 * with the next one. The outcome of every synthesis call is an input to the model:
 * `ok(i, g)` says whether the call for file `i` and gender `g` succeeds.
 */
module Batch {
  import opened Wrappers
  import opened Voices
  import opened ShortNames
  import opened OutputPaths
  import opened Ssml

  datatype Gender = Male | Female

  /** One enumerated input file; `text` is `None` when reading it throws. */
  datatype InputFile = InputFile(path: string, text: Option<string>)

  /** Which synthesis call: the file's position in the enumeration and the voice. */
  datatype Call = Call(file: nat, gender: Gender)

  /**
   * One attempted synthesis call with the arguments `GenerateAudio` is given: the text,
   * the output path, and the voice name, which is the record's full mapping. The body it
   * sends is `RequestBody(voiceName, text)`.
   */
  datatype Job = Job(file: nat, gender: Gender, outPath: string, voiceName: string, text: string)

  /** What the synthesis calls return, per file position and voice. */
  type Outcome = (nat, Gender) -> bool

  function VoiceFor(res: Resolved, g: Gender): Option<VoiceRecord>
  {
    match g
    case Male => res.male
    case Female => res.female
  }

  /** The job for file `i`, read as `text`, with voice `v`: the output name uses the short name and the male flag. */
  function MakeJob(i: nat, path: string, text: string, g: Gender, v: VoiceRecord): (j: Job)
    ensures j.file == i && j.gender == g && j.voiceName == v.mapping && j.text == text
  {
    Job(i, g, OutFileName(path, ShortNameFromMapping(v.mapping), g == Male), v.mapping, text)
  }

  /** The calls attempted for file `i`: male first, female only when the male call did not fail. */
  function FileCalls(i: nat, f: InputFile, res: Resolved, ok: Outcome): (r: seq<Call>)
    ensures |r| <= Count(res)
    ensures forall c :: c in r ==> c.file == i && f.text.Some? && VoiceFor(res, c.gender).Some?
    ensures |r| == 2 ==> r[0].gender == Male && r[1].gender == Female
  {
    if f.text.None? then []
    else
      var male := if res.male.Some? then [Call(i, Male)] else [];
      var maleFailed := res.male.Some? && !ok(i, Male);
      var female := if res.female.Some? && !maleFailed then [Call(i, Female)] else [];
      male + female
  }

  /** The jobs attempted for file `i`: the male job first, the female job only when the male call did not fail. */
  function FileAttempts(i: nat, f: InputFile, res: Resolved, ok: Outcome): seq<Job>
  {
    if f.text.None? then []
    else
      var male := if res.male.Some? then [MakeJob(i, f.path, f.text.value, Male, res.male.value)] else [];
      var maleFailed := res.male.Some? && !ok(i, Male);
      var female := if res.female.Some? && !maleFailed then [MakeJob(i, f.path, f.text.value, Female, res.female.value)] else [];
      male + female
  }

  /** Whether the `try` block for file `i` ends in the `catch`. */
  predicate FileFailed(i: nat, f: InputFile, res: Resolved, ok: Outcome)
  {
    || f.text.None?
    || (res.male.Some? && !ok(i, Male))
    || (res.female.Some? && !ok(i, Female) && !(res.male.Some? && !ok(i, Male)))
  }

  /** All calls attempted over `files`, in order. */
  function Attempts(files: seq<InputFile>, res: Resolved, ok: Outcome): seq<Job>
  {
    if |files| == 0 then []
    else Attempts(files[..|files| - 1], res, ok) + FileAttempts(|files| - 1, files[|files| - 1], res, ok)
  }

  /** The calls attempted over `files`, in order. */
  function Calls(files: seq<InputFile>, res: Resolved, ok: Outcome): seq<Call>
  {
    if |files| == 0 then []
    else Calls(files[..|files| - 1], res, ok) + FileCalls(|files| - 1, files[|files| - 1], res, ok)
  }

  /** The paths the `catch` block reports, in order. */
  function Reported(files: seq<InputFile>, res: Resolved, ok: Outcome): seq<string>
  {
    if |files| == 0 then []
    else
      var n := |files| - 1;
      Reported(files[..n], res, ok) + (if FileFailed(n, files[n], res, ok) then [files[n].path] else [])
  }

  /**
   * One `if` block of the `try` (Program.cs lines 102-112): the output path of the voice,
   * with the male flag set only for the male voice, then the synthesis call with the
   * voice's full mapping and the file's text, whose outcome is `ok(i, g)`.
   */
  method Synthesize(i: nat, path: string, text: string, g: Gender, v: VoiceRecord, ok: Outcome) returns (job: Job, success: bool)
    ensures job.file == i && job.gender == g && job.voiceName == v.mapping && job.text == text
    ensures InOutput(job.outPath)
    ensures '.' !in FileNameWithoutExtension(path) ==> MarksGender(job.outPath, g == Male)
    ensures success == ok(i, g)
    ensures job == MakeJob(i, path, text, g, v)
  {
    job := MakeJob(i, path, text, g, v);
    JobPath(path, v.mapping, g == Male, job.outPath);
    success := ok(i, g);
  }

  /** The output path of a job: under `output`, and marked with the gender when the stem has no '.'. */
  lemma JobPath(path: string, mapping: string, male: bool, p: string)
    requires p == OutFileName(path, ShortNameFromMapping(mapping), male)
    ensures InOutput(p)
    ensures '.' !in FileNameWithoutExtension(path) ==> MarksGender(p, male)
  {
    ShortNameHasNoPathCharacters(mapping);
    OutFileNameFlat(path, ShortNameFromMapping(mapping), male);
    if '.' !in FileNameWithoutExtension(path) {
      OutPathGenderSuffix(path, mapping, male);
    }
  }

  /** A `vo_` file with the `.wav` extension directly under `output`: no separator after `output/`. */
  predicate InOutput(p: string)
  {
    |p| >= 14 && p[..10] == "output/vo_" && p[|p| - 4..] == ".wav" && Separator !in p[7..]
  }

  /** The path ends in `_m.wav` for the male flag and in `_f.wav` otherwise. */
  predicate MarksGender(p: string, male: bool)
  {
    |p| >= 6 && p[|p| - 6..] == "_" + GenderSuffix(male) + ".wav"
  }

  /** The body of the `try` block for file `i` (Program.cs lines 98-118): the calls it attempts, and whether it ends in the `catch`. */
  method AttemptFile(i: nat, f: InputFile, res: Resolved, ok: Outcome) returns (step: seq<Job>, failed: bool)
    ensures step == FileAttempts(i, f, res, ok)
    ensures failed == FileFailed(i, f, res, ok)
  {
    step, failed := [], false;
    match f.text
    case None =>
      failed := true;
    case Some(text) =>
      var male: seq<Job> := [];
      if res.male.Some? {
        var job, success := Synthesize(i, f.path, text, Male, res.male.value, ok);
        male := [job];
        failed := !success;
      }
      var female: seq<Job> := [];
      if !failed && res.female.Some? {
        var job, success := Synthesize(i, f.path, text, Female, res.female.value, ok);
        female := [job];
        failed := !success;
      }
      step := male + female;
  }

  /** Going from the first `i` files to the first `i + 1` adds file `i`'s jobs, calls and report. */
  lemma PrefixStep(files: seq<InputFile>, i: nat, res: Resolved, ok: Outcome)
    requires i < |files|
    ensures Attempts(files[..i + 1], res, ok) == Attempts(files[..i], res, ok) + FileAttempts(i, files[i], res, ok)
    ensures Calls(files[..i + 1], res, ok) == Calls(files[..i], res, ok) + FileCalls(i, files[i], res, ok)
    ensures Reported(files[..i + 1], res, ok) == Reported(files[..i], res, ok) + (if FileFailed(i, files[i], res, ok) then [files[i].path] else [])
  {
    var next := files[..i + 1];
    assert next[..i] == files[..i] && next[i] == files[i];
  }

  /** The `foreach` loop of Program.cs lines 96-120. */
  method ProcessFiles(files: seq<InputFile>, res: Resolved, ok: Outcome) returns (log: seq<Job>, reported: seq<string>)
    ensures log == Attempts(files, res, ok)
    ensures Project(log) == Calls(files, res, ok)
    ensures reported == Reported(files, res, ok)
  {
    log, reported := [], [];
    for i := 0 to |files|
      invariant log == Attempts(files[..i], res, ok)
      invariant Project(log) == Calls(files[..i], res, ok)
      invariant reported == Reported(files[..i], res, ok)
    {
      PrefixStep(files, i, res, ok);
      var step, failed := AttemptFile(i, files[i], res, ok);
      ProjectAppend(log, step);
      FileAttemptsAreCalls(i, files[i], res, ok);
      log := log + step;
      if failed {
        reported := reported + [files[i].path];
      }
    }
    assert files[..|files|] == files;
  }

  /** How `Main` ends (Program.cs lines 18-124); the console messages are not modelled. */
  datatype RunResult = MissingLocale | MissingInputDirectory | TokenFailed | Completed(log: seq<Job>, reported: seq<string>)

  /**
   * `Main`. It exits early without a locale argument, without an input directory, or
   * when the token exchange fails. Otherwise it resolves the voices for `args[0]` and
   * runs the batch loop. `records` are the parsed entries of languages.json.
   */
  method Run(args: seq<string>, inputExists: bool, files: seq<InputFile>, records: seq<VoiceRecord>, tokenOk: bool, ok: Outcome)
    returns (r: RunResult)
    ensures |args| == 0 <==> r == MissingLocale
    ensures r == MissingInputDirectory <==> |args| > 0 && !inputExists
    ensures r == TokenFailed <==> |args| > 0 && inputExists && !tokenOk
    ensures r.Completed? ==> |args| > 0 && r.log == Attempts(files, Resolve(records, args[0]), ok) && r.reported == Reported(files, Resolve(records, args[0]), ok)
  {
    if |args| == 0 {
      return MissingLocale;
    }
    if !inputExists {
      return MissingInputDirectory;
    }
    var res := Resolve(records, args[0]);
    if !tokenOk {
      return TokenFailed;
    }
    var log, reported := ProcessFiles(files, res, ok);
    r := Completed(log, reported);
  }

  // ---------------------------------------------------------------------------
  // One file

  /**
   * Inside one file, the male voice is attempted whenever the file is readable and a
   * male voice is resolved. The female voice is attempted when the file is readable,
   * a female voice is resolved, and the male call either did not happen or succeeded.
   */
  lemma FilePolicy(i: nat, f: InputFile, res: Resolved, ok: Outcome)
    ensures Call(i, Male) in FileCalls(i, f, res, ok) <==> f.text.Some? && res.male.Some?
    ensures Call(i, Female) in FileCalls(i, f, res, ok) <==> f.text.Some? && res.female.Some? && (res.male.None? || ok(i, Male))
  {
  }

  /**
   * The `try` block stops at its first failure. Every call but the last one of a file
   * succeeded. The file is reported exactly when it is unreadable or its last call failed.
   */
  lemma FirstFailureEndsFile(i: nat, f: InputFile, res: Resolved, ok: Outcome)
    ensures var r := FileCalls(i, f, res, ok);
      FileFailed(i, f, res, ok) <==> f.text.None? || (r != [] && !ok(i, r[|r| - 1].gender))
    ensures var r := FileCalls(i, f, res, ok);
      forall k :: 0 <= k < |r| - 1 ==> ok(i, r[k].gender)
  {
  }

  // ---------------------------------------------------------------------------
  // The whole loop

  /** Which call a job is. */
  function CallOf(j: Job): Call
  {
    Call(j.file, j.gender)
  }

  /** The calls a log of jobs records, in order. */
  function Project(log: seq<Job>): (r: seq<Call>)
    ensures |r| == |log| && forall k :: 0 <= k < |log| ==> r[k] == CallOf(log[k])
  {
    seq(|log|, k requires 0 <= k < |log| => CallOf(log[k]))
  }

  lemma ProjectAppend(a: seq<Job>, b: seq<Job>)
    ensures Project(a + b) == Project(a) + Project(b)
  {
    assert |Project(a + b)| == |Project(a) + Project(b)|;
    forall k | 0 <= k < |a + b|
      ensures Project(a + b)[k] == (Project(a) + Project(b))[k]
    {
      if k < |a| {
        assert (a + b)[k] == a[k];
      } else {
        assert (a + b)[k] == b[k - |a|];
      }
    }
  }

  lemma ProjectOne(j: Job)
    ensures Project([j]) == [CallOf(j)]
  {
  }

  /** The jobs of one file record exactly the calls of that file. */
  lemma FileAttemptsAreCalls(i: nat, f: InputFile, res: Resolved, ok: Outcome)
    ensures Project(FileAttempts(i, f, res, ok)) == FileCalls(i, f, res, ok)
  {
    if f.text.Some? {
      var male := if res.male.Some? then [MakeJob(i, f.path, f.text.value, Male, res.male.value)] else [];
      var maleFailed := res.male.Some? && !ok(i, Male);
      var female := if res.female.Some? && !maleFailed then [MakeJob(i, f.path, f.text.value, Female, res.female.value)] else [];
      assert FileAttempts(i, f, res, ok) == male + female;
      ProjectAppend(male, female);
      if res.male.Some? {
        ProjectOne(male[0]);
      }
      if res.female.Some? && !maleFailed {
        ProjectOne(female[0]);
      }
    }
  }

  lemma MulStep(n: nat, k: nat)
    ensures (n + 1) * k == n * k + k
  {
  }

  lemma MulZero(n: nat, k: nat)
    requires k == 0
    ensures n * k == 0
  {
  }

  /** With `N` files and `k` resolved voices, there are at most `N * k` calls. */
  lemma {:induction false} CallsBound(files: seq<InputFile>, res: Resolved, ok: Outcome)
    ensures |Calls(files, res, ok)| <= |files| * Count(res)
  {
    if |files| > 0 {
      var n := |files| - 1;
      CallsBound(files[..n], res, ok);
      MulStep(n, Count(res));
    }
  }

  /** A readable file whose calls all succeed makes one call per resolved voice and is not reported. */
  lemma FileSucceeds(i: nat, f: InputFile, res: Resolved, ok: Outcome)
    requires f.text.Some? && ok(i, Male) && ok(i, Female)
    ensures |FileCalls(i, f, res, ok)| == Count(res)
    ensures !FileFailed(i, f, res, ok)
  {
  }

  lemma {:induction false} AllCalled(files: seq<InputFile>, res: Resolved, ok: Outcome)
    requires forall k :: 0 <= k < |files| ==> files[k].text.Some?
    requires forall k :: 0 <= k < |files| ==> ok(k, Male) && ok(k, Female)
    ensures |Calls(files, res, ok)| == |files| * Count(res)
  {
    if |files| > 0 {
      var n := |files| - 1;
      AllCalled(files[..n], res, ok);
      FileSucceeds(n, files[n], res, ok);
      MulStep(n, Count(res));
    }
  }

  lemma {:induction false} NoneReported(files: seq<InputFile>, res: Resolved, ok: Outcome)
    requires forall k :: 0 <= k < |files| ==> files[k].text.Some?
    requires forall k :: 0 <= k < |files| ==> ok(k, Male) && ok(k, Female)
    ensures Reported(files, res, ok) == []
  {
    if |files| > 0 {
      var n := |files| - 1;
      NoneReported(files[..n], res, ok);
      FileSucceeds(n, files[n], res, ok);
    }
  }

  /** When every file is readable and no call fails, there are exactly `N * k` calls and no file is reported. */
  lemma AllSucceed(files: seq<InputFile>, res: Resolved, ok: Outcome)
    requires forall k :: 0 <= k < |files| ==> files[k].text.Some?
    requires forall k :: 0 <= k < |files| ==> ok(k, Male) && ok(k, Female)
    ensures |Calls(files, res, ok)| == |files| * Count(res)
    ensures Reported(files, res, ok) == []
  {
    AllCalled(files, res, ok);
    NoneReported(files, res, ok);
  }

  /** Every call belongs to one of the files. */
  lemma {:induction false} CallsFromFiles(files: seq<InputFile>, res: Resolved, ok: Outcome, c: Call)
    requires c in Calls(files, res, ok)
    ensures c.file < |files|
  {
    var n := |files| - 1;
    if c in Calls(files[..n], res, ok) {
      CallsFromFiles(files[..n], res, ok, c);
    }
  }

  /** The calls made for file `i` are exactly those of file `i` on its own: other files do not affect them. */
  lemma {:induction false} CallsOfFile(files: seq<InputFile>, res: Resolved, ok: Outcome, i: nat, c: Call)
    requires i < |files|
    ensures c in Calls(files, res, ok) && c.file == i <==> c in FileCalls(i, files[i], res, ok)
  {
    var n := |files| - 1;
    var prefix := files[..n];
    assert Calls(files, res, ok) == Calls(prefix, res, ok) + FileCalls(n, files[n], res, ok);
    if i < n {
      CallsOfFile(prefix, res, ok, i, c);
      assert prefix[i] == files[i];
    } else if c in Calls(prefix, res, ok) {
      CallsFromFiles(prefix, res, ok, c);
    }
  }

  /** Whether a call on file `i` succeeds or fails changes nothing that is attempted for any other file. */
  lemma OutcomeIsolation(files: seq<InputFile>, res: Resolved, ok1: Outcome, ok2: Outcome, i: nat, c: Call)
    requires i < |files|
    requires ok1(i, Male) == ok2(i, Male) && ok1(i, Female) == ok2(i, Female)
    ensures c in Calls(files, res, ok1) && c.file == i <==> c in Calls(files, res, ok2) && c.file == i
  {
    CallsOfFile(files, res, ok1, i, c);
    CallsOfFile(files, res, ok2, i, c);
  }

  /** Calls go by file, and within a file the male call comes before the female call. */
  predicate Precedes(a: Call, b: Call)
  {
    a.file < b.file || (a.file == b.file && a.gender == Male && b.gender == Female)
  }

  /** Every call of `cs` precedes every later one. */
  predicate InOrder(cs: seq<Call>)
  {
    forall a, b :: 0 <= a < b < |cs| ==> Precedes(cs[a], cs[b])
  }

  lemma {:induction false} CallsInOrder(files: seq<InputFile>, res: Resolved, ok: Outcome)
    ensures InOrder(Calls(files, res, ok))
  {
    if |files| > 0 {
      var n := |files| - 1;
      var front, last := Calls(files[..n], res, ok), FileCalls(n, files[n], res, ok);
      CallsInOrder(files[..n], res, ok);
      var cs := front + last;
      forall a, b | 0 <= a < b < |cs|
        ensures Precedes(cs[a], cs[b])
      {
        if b >= |front| {
          assert cs[b] == last[b - |front|] && cs[b] in last;
          if a < |front| {
            assert cs[a] == front[a] && cs[a] in front;
            CallsFromFiles(files[..n], res, ok, cs[a]);
            assert cs[a].file < n == cs[b].file;
          } else {
            assert cs[a] == last[a - |front|] && cs[a] in last;
            assert |last| == 2 && a - |front| == 0 && b - |front| == 1;
            assert cs[a].gender == Male && cs[b].gender == Female;
            assert cs[a].file == n == cs[b].file;
          }
        } else {
          assert cs[a] == front[a] && cs[b] == front[b];
        }
      }
    }
  }

  /** The reported paths are those of the files whose `try` block failed. */
  lemma {:induction false} ReportedFiles(files: seq<InputFile>, res: Resolved, ok: Outcome, p: string)
    ensures p in Reported(files, res, ok) <==> exists k :: 0 <= k < |files| && files[k].path == p && FileFailed(k, files[k], res, ok)
  {
    if |files| > 0 {
      var n := |files| - 1;
      var prefix := files[..n];
      ReportedFiles(prefix, res, ok, p);
      if exists k :: 0 <= k < |files| && files[k].path == p && FileFailed(k, files[k], res, ok) {
        var k :| 0 <= k < |files| && files[k].path == p && FileFailed(k, files[k], res, ok);
        if k < n {
          assert prefix[k] == files[k];
        }
      }
      if exists k :: 0 <= k < n && prefix[k].path == p && FileFailed(k, prefix[k], res, ok) {
        var k :| 0 <= k < n && prefix[k].path == p && FileFailed(k, prefix[k], res, ok);
        assert files[k] == prefix[k];
      }
    }
  }

  /** If no record matches the locale, no call is attempted. */
  lemma NoVoicesNoCalls(files: seq<InputFile>, records: seq<VoiceRecord>, locale: string, ok: Outcome)
    requires forall v :: v in records ==> !LocaleMatches(v, locale)
    ensures Calls(files, Resolve(records, locale), ok) == []
  {
    NoLocaleNoVoices(records, locale);
    var res := Resolve(records, locale);
    CallsBound(files, res, ok);
    MulZero(|files|, Count(res));
  }

  /** If no record matches the locale, the loop still visits every file, and only unreadable files are reported. */
  lemma NoVoicesReportsUnreadable(files: seq<InputFile>, records: seq<VoiceRecord>, locale: string, ok: Outcome, p: string)
    requires forall v :: v in records ==> !LocaleMatches(v, locale)
    ensures p in Reported(files, Resolve(records, locale), ok) <==> exists k :: 0 <= k < |files| && files[k].path == p && files[k].text.None?
  {
    NoLocaleNoVoices(records, locale);
    ReportedFiles(files, Resolve(records, locale), ok, p);
  }

  // ---------------------------------------------------------------------------
  // One job

  /**
   * Every logged job belongs to a readable file. Its output path and voice name are
   * those of that file's male call, made with the male flag `true`, or of its female
   * call, made with the default `false`. Its body is built from that name and the
   * text read from that file.
   */
  lemma {:induction false} LoggedJobs(files: seq<InputFile>, res: Resolved, ok: Outcome, j: Job)
    requires j in Attempts(files, res, ok)
    ensures j.file < |files| && files[j.file].text.Some?
    ensures j.text == files[j.file].text.value
    ensures j.gender == Male ==> res.male.Some? && j.outPath == OutFileName(files[j.file].path, ShortNameFromMapping(res.male.value.mapping), true) && j.voiceName == res.male.value.mapping
    ensures j.gender == Female ==> res.female.Some? && j.outPath == OutFileName(files[j.file].path, ShortNameFromMapping(res.female.value.mapping), false) && j.voiceName == res.female.value.mapping
  {
    var n := |files| - 1;
    var prefix := files[..n];
    if j in Attempts(prefix, res, ok) {
      LoggedJobs(prefix, res, ok, j);
      assert prefix[j.file] == files[j.file];
    } else {
      var r := FileAttempts(n, files[n], res, ok);
      assert j in r;
      if res.male.Some? && j == MakeJob(n, files[n].path, files[n].text.value, Male, res.male.value) {
      } else {
        assert j == MakeJob(n, files[n].path, files[n].text.value, Female, res.female.value);
      }
    }
  }

  /**
   * For an input whose stem has no '.', the output name ends in `_m.wav` when the male
   * flag is set and in `_f.wav` otherwise, because a short name never holds a '.'.
   * With `LoggedJobs`, this gives `_m.wav` for every male job and `_f.wav` for every
   * female job.
   */
  lemma OutPathGenderSuffix(path: string, mapping: string, male: bool)
    requires '.' !in FileNameWithoutExtension(path)
    ensures MarksGender(OutFileName(path, ShortNameFromMapping(mapping), male), male)
  {
    ShortNameHasNoPathCharacters(mapping);
    OutFileNameGenderSuffix(path, ShortNameFromMapping(mapping), male);
  }

  /**
   * `GenerateAudio` (Program.cs lines 138-160) sends the body built from the job's voice
   * name and the text read from the job's file. For every logged job, that name is the
   * resolved record's full mapping, and the body reads back as that mapping and the text
   * of that very file.
   */
  lemma RequestNamesMapping(files: seq<InputFile>, res: Resolved, ok: Outcome, j: Job)
    requires j in Attempts(files, res, ok)
    requires '\'' !in j.voiceName
    ensures VoiceFor(res, j.gender).Some? && j.file < |files| && files[j.file].text.Some?
    ensures ParseBody(RequestBody(j.voiceName, j.text)) == Some((VoiceFor(res, j.gender).value.mapping, files[j.file].text.value))
  {
    LoggedJobs(files, res, ok, j);
    ParseRequestBody(j.voiceName, j.text);
  }

}
