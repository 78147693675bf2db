/**
 Running the test suite against one mutant and over a list of mutants: the
 command line for pytest or tox, the output suppression, the verdict from
 the exit status, which verdicts are reported, the in-place and the
 copy-to-a-temporary-directory workflows, and the batch loops that stop at
 the first failed run. The test process itself is a parameter: an oracle
 from the tree it runs on and the command to its exit status and the tree
 it leaves behind, or none when the process cannot be started.
 */
module Runner {
  import opened Text
  import opened Wrappers
  import opened Files
  import opened Mutants
  import opened Patch
  import opened Scanner
  import opened ScannerLaws

  /** The `Runner` option: which program runs the tests. */
  datatype TestRunner = Pytest | Tox

  /** How much is printed: only survivors, survivors and killed mutants, or also the test output. */
  datatype OutputLevel = Missed | Caught | Process

  /** The verdict for one mutant: the tests failed (caught) or passed (missed). */
  datatype MutantResult = Caught | Missed

  /** A process to start: program, arguments, working directory, and whether its output is discarded. */
  datatype Command = Command(program: Str, args: seq<Str>, cwd: Path, quiet: bool)

  /** How a test process ended. */
  datatype ExitStatus = Exited(code: int) | Signalled(signal: int)

  /** What the runs share: the runner, the test selection, the tox environment and the output level. */
  datatype Config = Config(runner: TestRunner, tests: Str, environment: Option<Str>, level: OutputLevel)

  /** What a test process that ran leaves: its exit status and the tree as it left it (caches, files the tests wrote). */
  datatype TestRun = TestRun(status: ExitStatus, fs: FileSystem)

  /** The test process, started on a tree with a command, or none when it cannot be started. */
  type Oracle = (FileSystem, Command) -> Option<TestRun>

  const PytestArgs: seq<Str> := ["-B", "-m", "pytest"]

  /**
   The test command: pytest through `python -B -m pytest <tests> -x`, with
   a "-n <threads>" argument when a thread count is given, or `tox`, with
   "-e <environment>" when one is given; output is discarded unless the
   level is `Process`.
   */
  function TestCommand(runner: TestRunner, tests: Str, environment: Option<Str>, threads: Option<nat>,
                       level: OutputLevel, cwd: Path): (c: Command)
    ensures c.cwd == cwd
    ensures c.quiet <==> level != OutputLevel.Process
    ensures runner == Pytest ==> c.program == "python" && |c.args| >= 5 && c.args[..5] == PytestArgs + [tests, "-x"]
    ensures runner == Tox ==> c.program == "tox" && |c.args| <= 1
  {
    var program := if runner == Pytest then "python" else "tox";
    var args :=
      match runner
      case Pytest => PytestArgs + [tests, "-x"] + (if threads.Some? then ["-n " + NatToString(threads.value)] else [])
      case Tox => if environment.Some? then ["-e " + environment.value] else [];
    Command(program, args, cwd, level != OutputLevel.Process)
  }

  /**
   The options behind the fixed arguments read back: the thread count is
   the number after "-n " in the sixth pytest argument (absent without a
   count), and the tox environment is what follows "-e ".
   */
  lemma TestCommandOptions(runner: TestRunner, tests: Str, environment: Option<Str>, threads: Option<nat>,
                           level: OutputLevel, cwd: Path)
    ensures var c := TestCommand(runner, tests, environment, threads, level, cwd);
      && (runner == Pytest ==>
            && (threads.None? <==> |c.args| == 5)
            && (threads.Some? ==> |c.args| == 6 && StartsWith(c.args[5], "-n ") && ParseNat(c.args[5][3..]) == threads.value))
      && (runner == Tox ==>
            && (environment.None? <==> |c.args| == 0)
            && (environment.Some? ==> |c.args| == 1 && StartsWith(c.args[0], "-e ") && c.args[0][3..] == environment.value))
  {
    var c := TestCommand(runner, tests, environment, threads, level, cwd);
    if runner == Pytest && threads.Some? {
      var opt := "-n " + NatToString(threads.value);
      assert c.args[5] == opt;
      assert opt[..3] == "-n ";
      assert opt[3..] == NatToString(threads.value);
      ParseNatToString(threads.value);
    }
    if runner == Tox && environment.Some? {
      var opt := "-e " + environment.value;
      assert c.args[0] == opt;
      assert opt[..3] == "-e ";
      assert opt[3..] == environment.value;
    }
  }

  /** `ExitStatus::success`: a normal exit with code 0. */
  predicate Success(status: ExitStatus) {
    status == Exited(0)
  }

  /** Tests that pass let the mutant survive; any failure, crash or signal catches it. */
  function Classify(status: ExitStatus): (r: MutantResult)
    ensures r == MutantResult.Missed <==> Success(status)
  {
    if Success(status) then MutantResult.Missed else MutantResult.Caught
  }

  /** A line of the progress report. */
  datatype Report = Survived(mutant: Mutant) | Killed(mutant: Mutant)

  /** The report for one verdict: survivors always, killed mutants unless only survivors are wanted. */
  function ReportOf(level: OutputLevel, m: Mutant, result: MutantResult): (r: seq<Report>)
    ensures |r| <= 1
    ensures forall x :: x in r ==> x.mutant == m
  {
    match result
    case Missed => [Survived(m)]
    case Caught => if level == OutputLevel.Missed then [] else [Killed(m)]
  }

  /** The output levels by how much they print. */
  function Verbosity(level: OutputLevel): nat {
    match level
    case Missed => 0
    case Caught => 1
    case Process => 2
  }

  /**
   A survivor is reported at every level, a killed mutant exactly above the
   lowest level, and a more verbose level never reports less.
   */
  lemma ReportLevels(level: OutputLevel, level': OutputLevel, m: Mutant, result: MutantResult)
    ensures Survived(m) in ReportOf(level, m, result) <==> result == MutantResult.Missed
    ensures Killed(m) in ReportOf(level, m, result) <==> result == MutantResult.Caught && level != OutputLevel.Missed
    ensures Verbosity(level) <= Verbosity(level') ==> ReportOf(level, m, result) <= ReportOf(level', m, result)
  {
  }

  /** What one run leaves: a verdict, a test process that could not start, or a panic, with the tree as left. */
  datatype RunOutcome =
    | Finished(fs: FileSystem, result: MutantResult)
    | SpawnFailed(fs: FileSystem)
    | Aborted(fs: FileSystem)

  /** The in-place command: pytest or tox in the project root, with the thread option. */
  function InPlaceCommand(root: Path, cfg: Config, threads: Option<nat>): Command {
    TestCommand(cfg.runner, cfg.tests, cfg.environment, threads, cfg.level, root)
  }

  /**
   `run_mutant_inplace`: insert the mutant into the project (a failure
   panics), run the tests in `root`, put the saved line back into the tree
   the tests left (a failure panics) and classify the exit status. A test
   process that cannot start returns before the line is put back.
   */
  function RunMutantInPlace(fs: FileSystem, m: Mutant, root: Path, cfg: Config, threads: Option<nat>, oracle: Oracle): (r: RunOutcome)
    ensures !Insert(fs, m).Written? ==> r == Aborted(fs)
    ensures r.SpawnFailed? ==> r.fs == Insert(fs, m).fs
    ensures r.Finished? ==>
      && Insert(fs, m).Written?
      && oracle(Insert(fs, m).fs, InPlaceCommand(root, cfg, threads)).Some?
      && var t := oracle(Insert(fs, m).fs, InPlaceCommand(root, cfg, threads)).value;
         Remove(t.fs, m) == Written(r.fs) && r.result == Classify(t.status)
  {
    match Insert(fs, m)
    case Written(fs1) =>
      (match oracle(fs1, InPlaceCommand(root, cfg, threads))
       case None => SpawnFailed(fs1)
       case Some(t) =>
         match Remove(t.fs, m)
         case Written(fs2) => Finished(fs2, Classify(t.status))
         case _ => Aborted(t.fs))
    case _ => Aborted(fs)
  }

  /** The tests start on `before` and leave the file at `p` as they found it; they may write elsewhere. */
  predicate LeavesFile(oracle: Oracle, before: FileSystem, c: Command, p: Path) {
    && p in before
    && oracle(before, c).Some?
    && p in oracle(before, c).value.fs
    && oracle(before, c).value.fs[p] == before[p]
  }

  /** The tests start on `before` and leave the whole tree as they found it. */
  predicate LeavesTree(oracle: Oracle, before: FileSystem, c: Command) {
    oracle(before, c).Some? && oracle(before, c).value.fs == before
  }

  /**
   On a file in the written form, with the mutant scanned from it, an
   in-place run whose tests start and leave the mutated file alone puts
   that file back as it was; every other file stays as the tests left it,
   and the verdict is the tests' exit status on the mutated project.
   */
  lemma RunInPlaceRestores(fs: FileSystem, m: Mutant, root: Path, cfg: Config, threads: Option<nat>, oracle: Oracle)
    requires Insert(fs, m).Written?
    requires Normalized(fs[m.filePath])
    requires '\n' !in m.after
    requires m.oldLine == Lines(fs[m.filePath])[m.lineNumber - 1]
    requires LeavesFile(oracle, Insert(fs, m).fs, InPlaceCommand(root, cfg, threads), m.filePath)
    ensures var t := oracle(Insert(fs, m).fs, InPlaceCommand(root, cfg, threads)).value;
      RunMutantInPlace(fs, m, root, cfg, threads, oracle) == Finished(t.fs[m.filePath := fs[m.filePath]], Classify(t.status))
  {
    var fs1 := Insert(fs, m).fs;
    var t := oracle(fs1, InPlaceCommand(root, cfg, threads)).value;
    RemoveAfterInsertRestores(fs, m);
    RewriteReadsOnlyItsFile(fs1, t.fs, m.filePath, m.lineNumber, Restore(m.oldLine));
  }

  /**
   When the tests also leave every other file alone, the in-place run gives
   back the project unchanged with the tests' verdict.
   */
  lemma RunInPlaceUnchanged(fs: FileSystem, m: Mutant, root: Path, cfg: Config, threads: Option<nat>, oracle: Oracle)
    requires Insert(fs, m).Written?
    requires Normalized(fs[m.filePath])
    requires '\n' !in m.after
    requires m.oldLine == Lines(fs[m.filePath])[m.lineNumber - 1]
    requires LeavesTree(oracle, Insert(fs, m).fs, InPlaceCommand(root, cfg, threads))
    ensures RunMutantInPlace(fs, m, root, cfg, threads, oracle)
         == Finished(fs, Classify(oracle(Insert(fs, m).fs, InPlaceCommand(root, cfg, threads)).value.status))
  {
    var fs1 := Insert(fs, m).fs;
    RunInPlaceRestores(fs, m, root, cfg, threads, oracle);
    assert oracle(fs1, InPlaceCommand(root, cfg, threads)).value.fs == fs1;
    ChangedOnlyAt(fs, fs1, m.filePath);
    UndoUpdate(fs, m.filePath, fs1[m.filePath]);
  }

  /**
   Every mutant the scanner finds in a file in the written form, with rules
   that keep a line one line, is undone by its in-place run when the tests
   leave the mutated file alone: the file comes back as it was whatever the
   tests say.
   */
  lemma ScannedMutantRunRestores(fs: FileSystem, path: Path, rules: seq<Rule>, m: Mutant,
                                 root: Path, cfg: Config, threads: Option<nat>, oracle: Oracle)
    requires path in fs && Normalized(fs[path])
    requires forall r :: r in rules ==> '\n' !in r.after
    requires m in AddMutantsFromFile(path, fs[path], rules)
    requires Insert(fs, m).Written? ==> LeavesFile(oracle, Insert(fs, m).fs, InPlaceCommand(root, cfg, threads), m.filePath)
    ensures Insert(fs, m).Written?
    ensures var t := oracle(Insert(fs, m).fs, InPlaceCommand(root, cfg, threads)).value;
      RunMutantInPlace(fs, m, root, cfg, threads, oracle) == Finished(t.fs[path := fs[path]], Classify(t.status))
  {
    EmittedMutant(path, fs[path], rules, m);
    RunInPlaceRestores(fs, m, root, cfg, threads, oracle);
  }

  /** A test process that cannot start leaves the mutant in the project. */
  lemma SpawnFailureLeavesMutant(fs: FileSystem, m: Mutant, root: Path, cfg: Config, threads: Option<nat>, oracle: Oracle)
    requires Insert(fs, m).Written?
    requires oracle(Insert(fs, m).fs, InPlaceCommand(root, cfg, threads)).None?
    ensures RunMutantInPlace(fs, m, root, cfg, threads, oracle) == SpawnFailed(Insert(fs, m).fs)
  {
  }

  /**
   `run_mutant`: copy the project to the temporary directory `tmp`, insert
   the mutant into the copy (a failure panics), run the tests in the copy
   without a thread option, and delete the copy whatever happened (the
   temporary directory is removed when it goes out of scope, on a panic too).
   */
  function RunMutant(fs: FileSystem, m: Mutant, root: Path, tmp: Path, cfg: Config, oracle: Oracle): (r: RunOutcome)
    ensures forall p :: p in r.fs ==> !(tmp <= p)
  {
    var copy := CopyTree(fs, root, tmp);
    match InsertInNewRoot(copy, m, root, tmp)
    case Written(fs1) =>
      (match oracle(fs1, IsolatedCommand(tmp, cfg))
       case None => SpawnFailed(RemoveTree(fs1, tmp))
       case Some(t) => Finished(RemoveTree(t.fs, tmp), Classify(t.status)))
    case _ => Aborted(RemoveTree(copy, tmp))
  }

  /** The isolated command: the same test command in the copy, without a thread option. */
  function IsolatedCommand(tmp: Path, cfg: Config): Command {
    TestCommand(cfg.runner, cfg.tests, cfg.environment, None, cfg.level, tmp)
  }

  /** Started with `c` on `before`, the tests write nothing outside their working directory. */
  predicate StaysIn(oracle: Oracle, before: FileSystem, c: Command) {
    oracle(before, c).Some? ==> RemoveTree(oracle(before, c).value.fs, c.cwd) == RemoveTree(before, c.cwd)
  }

  /** A test process that writes only below the directory it is started in (its caches, its own files). */
  ghost predicate Confined(oracle: Oracle) {
    forall a: FileSystem, c: Command :: StaysIn(oracle, a, c)
  }

  /** No file lies under `dir`: a freshly created temporary directory. */
  predicate Fresh(fs: FileSystem, dir: Path) {
    forall p :: p in fs ==> !(dir <= p)
  }

  /** The copy and whatever was done to it under `tmp` are gone once it is deleted. */
  lemma CopyRemoved(fs: FileSystem, root: Path, tmp: Path, fs1: FileSystem)
    requires Fresh(fs, tmp)
    requires fs1.Keys == CopyTree(fs, root, tmp).Keys
    requires forall p :: p in fs1 && !(tmp <= p) ==> fs1[p] == CopyTree(fs, root, tmp)[p]
    ensures RemoveTree(fs1, tmp) == fs
  {
    var copy := CopyTree(fs, root, tmp);
    RemoveTreeOfAgreeing(fs1, copy, tmp);
    RemoveTreeOfAgreeing(copy, fs, tmp);
    RemoveAbsentTree(fs, tmp);
  }

  /**
   With a fresh temporary directory and tests that write only below their
   working directory, an isolated run leaves the project as it was, whatever
   the outcome.
   */
  lemma RunMutantKeepsProject(fs: FileSystem, m: Mutant, root: Path, tmp: Path, cfg: Config, oracle: Oracle)
    requires Fresh(fs, tmp)
    requires Confined(oracle)
    ensures RunMutant(fs, m, root, tmp, cfg, oracle).fs == fs
  {
    var copy := CopyTree(fs, root, tmp);
    var ins := InsertInNewRoot(copy, m, root, tmp);
    if ins.Written? {
      var rel := m.filePath[|root|..];
      assert tmp <= tmp + rel;
      CopyRemoved(fs, root, tmp, ins.fs);
      assert StaysIn(oracle, ins.fs, IsolatedCommand(tmp, cfg));
    } else {
      CopyRemoved(fs, root, tmp, copy);
    }
  }

  /**
   The project the isolated tests see from the copy is the one the in-place
   tests see from the root: the copy with the mutant inserted, viewed from
   `tmp`, is the mutated project viewed from `root`.
   */
  lemma CopyViewMatchesInPlace(fs: FileSystem, m: Mutant, root: Path, tmp: Path)
    requires m.filePath in fs && root <= m.filePath
    requires Fresh(fs, tmp)
    requires Insert(fs, m).Written?
    ensures InsertInNewRoot(CopyTree(fs, root, tmp), m, root, tmp).Written?
    ensures View(InsertInNewRoot(CopyTree(fs, root, tmp), m, root, tmp).fs, tmp) == View(Insert(fs, m).fs, root)
  {
    var copy := CopyTree(fs, root, tmp);
    var rel := m.filePath[|root|..];
    assert root + rel == m.filePath;
    InsertInCopyMatchesInsert(fs, m, root, tmp);
    var fs1 := InsertInNewRoot(copy, m, root, tmp).fs;
    var fsI := Insert(fs, m).fs;
    var text := fsI[m.filePath];
    ChangedOnlyAt(fs, fsI, root + rel);
    ChangedOnlyAt(copy, fs1, tmp + rel);
    ViewOfUpdate(fs, root, rel, text);
    ViewOfUpdate(copy, tmp, rel, text);
    CopyView(fs, root, tmp);
  }

  /**
   A test process whose start and exit status depend only on the project it
   is started in: the same command in two directories holding the same
   files starts on both or on neither, with the same exit status.
   */
  ghost predicate Hermetic(oracle: Oracle) {
    forall a: FileSystem, b: FileSystem, c: Command, d: Command {:trigger oracle(a, c), oracle(b, d)} ::
      (c.program == d.program && c.args == d.args && c.quiet == d.quiet && View(a, c.cwd) == View(b, d.cwd))
      ==> && (oracle(a, c).Some? <==> oracle(b, d).Some?)
          && (oracle(a, c).Some? && oracle(b, d).Some? ==> oracle(a, c).value.status == oracle(b, d).value.status)
  }

  /**
   The two workflows agree: for a hermetic test process that writes only
   below its working directory and, in place, leaves the mutated file
   alone, a mutant scanned from a file in the written form, and a fresh
   temporary directory, the isolated run and the in-place run without a
   thread option end the same way with the same verdict, and the isolated
   run leaves the project unchanged. The in-place run leaves it unchanged
   too when its tests write nothing.
   */
  lemma InPlaceMatchesIsolated(fs: FileSystem, m: Mutant, root: Path, tmp: Path, cfg: Config, oracle: Oracle)
    requires Hermetic(oracle) && Confined(oracle)
    requires m.filePath in fs && root <= m.filePath
    requires Fresh(fs, tmp)
    requires Insert(fs, m).Written?
    requires Normalized(fs[m.filePath])
    requires '\n' !in m.after
    requires m.oldLine == Lines(fs[m.filePath])[m.lineNumber - 1]
    requires oracle(Insert(fs, m).fs, InPlaceCommand(root, cfg, None)).Some?
             ==> LeavesFile(oracle, Insert(fs, m).fs, InPlaceCommand(root, cfg, None), m.filePath)
    ensures var inPlace := RunMutantInPlace(fs, m, root, cfg, None, oracle);
            var isolated := RunMutant(fs, m, root, tmp, cfg, oracle);
      && (inPlace.Finished? <==> isolated.Finished?)
      && (inPlace.SpawnFailed? <==> isolated.SpawnFailed?)
      && (inPlace.Finished? ==> inPlace.result == isolated.result && isolated.fs == fs)
      && (LeavesTree(oracle, Insert(fs, m).fs, InPlaceCommand(root, cfg, None)) ==> inPlace == isolated)
  {
    CopyViewMatchesInPlace(fs, m, root, tmp);
    var fs1 := InsertInNewRoot(CopyTree(fs, root, tmp), m, root, tmp).fs;
    var c := InPlaceCommand(root, cfg, None);
    var d := IsolatedCommand(tmp, cfg);
    assert oracle(Insert(fs, m).fs, c).Some? <==> oracle(fs1, d).Some?;
    RunMutantKeepsProject(fs, m, root, tmp, cfg, oracle);
    if oracle(Insert(fs, m).fs, c).Some? {
      RunInPlaceRestores(fs, m, root, cfg, None, oracle);
      if LeavesTree(oracle, Insert(fs, m).fs, c) {
        RunInPlaceUnchanged(fs, m, root, cfg, None, oracle);
      }
    }
  }

  // Batches.

  /** A batch run: every mutant run and the report printed, or the run stopped by the panic at `failed`. */
  datatype BatchOutcome =
    | Completed(fs: FileSystem, reports: seq<Report>)
    | Stopped(fs: FileSystem, reports: seq<Report>, failed: Mutant)

  function PrependReports(r: seq<Report>, b: BatchOutcome): BatchOutcome {
    match b
    case Completed(fs, rs) => Completed(fs, r + rs)
    case Stopped(fs, rs, failed) => Stopped(fs, r + rs, failed)
  }

  /** The reports of a list of runs taken one by one; a run without a verdict reports nothing. */
  function ReportsOfRuns(level: OutputLevel, ms: seq<Mutant>, runs: seq<RunOutcome>): seq<Report>
    requires |runs| == |ms|
    decreases |ms|
  {
    if |ms| == 0 then []
    else (if runs[0].Finished? then ReportOf(level, ms[0], runs[0].result) else []) + ReportsOfRuns(level, ms[1..], runs[1..])
  }

  /** A mutant is reported as a survivor exactly when some run of it ended with the tests passing. */
  lemma {:induction false} SurvivorsOfRuns(level: OutputLevel, ms: seq<Mutant>, runs: seq<RunOutcome>, x: Mutant)
    requires |runs| == |ms|
    ensures Survived(x) in ReportsOfRuns(level, ms, runs)
        <==> exists k :: 0 <= k < |ms| && ms[k] == x && runs[k] == Finished(runs[k].fs, MutantResult.Missed)
    decreases |ms|
  {
    if |ms| > 0 {
      SurvivorsOfRuns(level, ms[1..], runs[1..], x);
      var head := if runs[0].Finished? then ReportOf(level, ms[0], runs[0].result) else [];
      assert ReportsOfRuns(level, ms, runs) == head + ReportsOfRuns(level, ms[1..], runs[1..]);
      forall k | 0 < k < |ms|
        ensures ms[k] == ms[1..][k - 1] && runs[k] == runs[1..][k - 1]
      {
      }
      if exists k :: 0 <= k < |ms[1..]| && ms[1..][k] == x && runs[1..][k] == Finished(runs[1..][k].fs, MutantResult.Missed) {
        var k :| 0 <= k < |ms[1..]| && ms[1..][k] == x && runs[1..][k] == Finished(runs[1..][k].fs, MutantResult.Missed);
        assert ms[k + 1] == x && runs[k + 1] == runs[1..][k];
      }
    }
  }

  /** A mutant is reported as killed exactly when some run of it ended with the tests failing and killed mutants are wanted. */
  lemma {:induction false} KilledOfRuns(level: OutputLevel, ms: seq<Mutant>, runs: seq<RunOutcome>, x: Mutant)
    requires |runs| == |ms|
    ensures Killed(x) in ReportsOfRuns(level, ms, runs)
        <==> level != OutputLevel.Missed && exists k :: 0 <= k < |ms| && ms[k] == x && runs[k] == Finished(runs[k].fs, MutantResult.Caught)
    decreases |ms|
  {
    if |ms| > 0 {
      KilledOfRuns(level, ms[1..], runs[1..], x);
      var head := if runs[0].Finished? then ReportOf(level, ms[0], runs[0].result) else [];
      assert ReportsOfRuns(level, ms, runs) == head + ReportsOfRuns(level, ms[1..], runs[1..]);
      forall k | 0 < k < |ms|
        ensures ms[k] == ms[1..][k - 1] && runs[k] == runs[1..][k - 1]
      {
      }
      if exists k :: 0 <= k < |ms[1..]| && ms[1..][k] == x && runs[1..][k] == Finished(runs[1..][k].fs, MutantResult.Caught) {
        var k :| 0 <= k < |ms[1..]| && ms[1..][k] == x && runs[1..][k] == Finished(runs[1..][k].fs, MutantResult.Caught);
        assert ms[k + 1] == x && runs[k + 1] == runs[1..][k];
      }
    }
  }

  /**
   A mutant is reported as a survivor exactly when some run of it ended
   with the tests passing, and as killed exactly when some run of it ended
   with them failing and killed mutants are wanted.
   */
  lemma ReportsOfRunsSpec(level: OutputLevel, ms: seq<Mutant>, runs: seq<RunOutcome>, x: Mutant)
    requires |runs| == |ms|
    ensures Survived(x) in ReportsOfRuns(level, ms, runs)
        <==> exists k :: 0 <= k < |ms| && ms[k] == x && runs[k] == Finished(runs[k].fs, MutantResult.Missed)
    ensures Killed(x) in ReportsOfRuns(level, ms, runs)
        <==> level != OutputLevel.Missed && exists k :: 0 <= k < |ms| && ms[k] == x && runs[k] == Finished(runs[k].fs, MutantResult.Caught)
  {
    SurvivorsOfRuns(level, ms, runs, x);
    KilledOfRuns(level, ms, runs, x);
  }

  /**
   The batch loop over runs already known, the project ending as `fs` when
   every run has a verdict: the reports in order, up to the first run
   without a verdict, where the batch stops with the tree that run left.
   */
  function BatchOfRuns(level: OutputLevel, ms: seq<Mutant>, runs: seq<RunOutcome>, fs: FileSystem): BatchOutcome
    requires |runs| == |ms|
    decreases |ms|
  {
    if |ms| == 0 then Completed(fs, [])
    else if runs[0].Finished? then PrependReports(ReportOf(level, ms[0], runs[0].result), BatchOfRuns(level, ms[1..], runs[1..], fs))
    else Stopped(runs[0].fs, [], ms[0])
  }

  /**
   The batch completes exactly when every run has a verdict, and then
   reports what the runs report; otherwise it stops at the first run
   without a verdict, on the tree that run left.
   */
  lemma {:induction false} BatchOfRunsSpec(level: OutputLevel, ms: seq<Mutant>, runs: seq<RunOutcome>, fs: FileSystem)
    requires |runs| == |ms|
    ensures var b := BatchOfRuns(level, ms, runs, fs);
      && (b.Completed? <==> forall k :: 0 <= k < |ms| ==> runs[k].Finished?)
      && (b.Completed? ==> b == Completed(fs, ReportsOfRuns(level, ms, runs)))
      && (b.Stopped? ==> exists k :: 0 <= k < |ms| && ms[k] == b.failed && !runs[k].Finished? && b.fs == runs[k].fs
                                    && forall j :: 0 <= j < k ==> runs[j].Finished?)
    decreases |ms|
  {
    if |ms| > 0 && runs[0].Finished? {
      BatchOfRunsSpec(level, ms[1..], runs[1..], fs);
      var rest := BatchOfRuns(level, ms[1..], runs[1..], fs);
      forall k | 0 < k < |ms|
        ensures ms[k] == ms[1..][k - 1] && runs[k] == runs[1..][k - 1]
      {
      }
      if rest.Stopped? {
        var k :| 0 <= k < |ms[1..]| && ms[1..][k] == rest.failed && !runs[1..][k].Finished? && rest.fs == runs[1..][k].fs
                 && forall j :: 0 <= j < k ==> runs[1..][j].Finished?;
        assert ms[k + 1] == rest.failed && runs[k + 1] == runs[1..][k];
      }
    }
  }

  /**
   `run_mutants_inplace`: the mutants one after another on the same tree,
   each report printed as its verdict arrives; the first run without a
   verdict panics and stops the batch.
   */
  function RunBatchInPlace(fs: FileSystem, ms: seq<Mutant>, root: Path, cfg: Config, threads: Option<nat>, oracle: Oracle): (b: BatchOutcome)
    ensures b.Stopped? ==> b.failed in ms
    decreases |ms|
  {
    if |ms| == 0 then Completed(fs, [])
    else
      var r := RunMutantInPlace(fs, ms[0], root, cfg, threads, oracle);
      if r.Finished? then
        var rest := RunBatchInPlace(r.fs, ms[1..], root, cfg, threads, oracle);
        assert rest.Stopped? ==> rest.failed in ms;
        PrependReports(ReportOf(cfg.level, ms[0], r.result), rest)
      else Stopped(r.fs, [], ms[0])
  }

  /** Each mutant run on its own against the same project, in place. */
  function InPlaceRuns(fs: FileSystem, ms: seq<Mutant>, root: Path, cfg: Config, threads: Option<nat>, oracle: Oracle): (runs: seq<RunOutcome>)
    ensures |runs| == |ms|
    decreases |ms|
  {
    if |ms| == 0 then [] else [RunMutantInPlace(fs, ms[0], root, cfg, threads, oracle)] + InPlaceRuns(fs, ms[1..], root, cfg, threads, oracle)
  }

  /**
   When every run with a verdict gives the project back, the in-place batch
   is the batch over the runs taken one by one against the original
   project: sharing the tree changes no verdict and no report.
   */
  lemma {:induction false} BatchInPlaceIsRunsAlone(fs: FileSystem, ms: seq<Mutant>, root: Path, cfg: Config, threads: Option<nat>, oracle: Oracle)
    requires forall k :: 0 <= k < |ms| ==>
               (RunMutantInPlace(fs, ms[k], root, cfg, threads, oracle).Finished?
                ==> RunMutantInPlace(fs, ms[k], root, cfg, threads, oracle).fs == fs)
    ensures RunBatchInPlace(fs, ms, root, cfg, threads, oracle)
         == BatchOfRuns(cfg.level, ms, InPlaceRuns(fs, ms, root, cfg, threads, oracle), fs)
    decreases |ms|
  {
    if |ms| > 0 {
      var r := RunMutantInPlace(fs, ms[0], root, cfg, threads, oracle);
      if r.Finished? {
        forall k | 0 <= k < |ms[1..]|
          ensures RunMutantInPlace(fs, ms[1..][k], root, cfg, threads, oracle).Finished?
                  ==> RunMutantInPlace(fs, ms[1..][k], root, cfg, threads, oracle).fs == fs
        {
          assert ms[1..][k] == ms[k + 1];
        }
        BatchInPlaceIsRunsAlone(fs, ms[1..], root, cfg, threads, oracle);
      }
    }
  }

  /**
   The conditions under which an in-place run gives the project back: the
   mutant's file is in the written form, its saved line is the line in the
   project, its replacement has no line break, and the tests start and
   write nothing.
   */
  predicate RestorableInPlace(fs: FileSystem, m: Mutant, root: Path, cfg: Config, threads: Option<nat>, oracle: Oracle) {
    && Insert(fs, m).Written?
    && Normalized(fs[m.filePath])
    && '\n' !in m.after
    && m.oldLine == Lines(fs[m.filePath])[m.lineNumber - 1]
    && LeavesTree(oracle, Insert(fs, m).fs, InPlaceCommand(root, cfg, threads))
  }

  /** Under those conditions the in-place batch completes, restores the project, and reports every verdict. */
  lemma BatchInPlaceRestores(fs: FileSystem, ms: seq<Mutant>, root: Path, cfg: Config, threads: Option<nat>, oracle: Oracle)
    requires forall k :: 0 <= k < |ms| ==> RestorableInPlace(fs, ms[k], root, cfg, threads, oracle)
    ensures RunBatchInPlace(fs, ms, root, cfg, threads, oracle)
         == Completed(fs, ReportsOfRuns(cfg.level, ms, InPlaceRuns(fs, ms, root, cfg, threads, oracle)))
  {
    var runs := InPlaceRuns(fs, ms, root, cfg, threads, oracle);
    InPlaceRunsRestore(fs, ms, root, cfg, threads, oracle);
    BatchInPlaceIsRunsAlone(fs, ms, root, cfg, threads, oracle);
    CompletedWhenAllFinished(cfg.level, ms, runs, fs);
  }

  /** Every run taken alone under those conditions finishes and gives the project back. */
  lemma InPlaceRunsRestore(fs: FileSystem, ms: seq<Mutant>, root: Path, cfg: Config, threads: Option<nat>, oracle: Oracle)
    requires forall k :: 0 <= k < |ms| ==> RestorableInPlace(fs, ms[k], root, cfg, threads, oracle)
    ensures forall k :: 0 <= k < |ms| ==> RunMutantInPlace(fs, ms[k], root, cfg, threads, oracle).Finished?
                                          && RunMutantInPlace(fs, ms[k], root, cfg, threads, oracle).fs == fs
    ensures var runs := InPlaceRuns(fs, ms, root, cfg, threads, oracle);
            forall k :: 0 <= k < |ms| ==> runs[k].Finished?
  {
    var runs := InPlaceRuns(fs, ms, root, cfg, threads, oracle);
    forall k | 0 <= k < |ms|
      ensures RunMutantInPlace(fs, ms[k], root, cfg, threads, oracle) == runs[k]
      ensures runs[k].Finished? && runs[k].fs == fs
    {
      InPlaceRunRestoresAt(fs, ms, root, cfg, threads, oracle, k);
    }
  }

  lemma InPlaceRunRestoresAt(fs: FileSystem, ms: seq<Mutant>, root: Path, cfg: Config, threads: Option<nat>, oracle: Oracle, k: nat)
    requires k < |ms| && RestorableInPlace(fs, ms[k], root, cfg, threads, oracle)
    ensures var r := RunMutantInPlace(fs, ms[k], root, cfg, threads, oracle);
      && r == InPlaceRuns(fs, ms, root, cfg, threads, oracle)[k]
      && r.Finished? && r.fs == fs
  {
    InPlaceRunsAt(fs, ms, root, cfg, threads, oracle, k);
    RunInPlaceUnchanged(fs, ms[k], root, cfg, threads, oracle);
  }

  /** A batch over runs that all have a verdict completes with every report. */
  lemma CompletedWhenAllFinished(level: OutputLevel, ms: seq<Mutant>, runs: seq<RunOutcome>, fs: FileSystem)
    requires |runs| == |ms| && forall k :: 0 <= k < |ms| ==> runs[k].Finished?
    ensures BatchOfRuns(level, ms, runs, fs) == Completed(fs, ReportsOfRuns(level, ms, runs))
  {
    BatchOfRunsSpec(level, ms, runs, fs);
  }

  lemma {:induction false} InPlaceRunsAt(fs: FileSystem, ms: seq<Mutant>, root: Path, cfg: Config, threads: Option<nat>, oracle: Oracle, k: nat)
    requires k < |ms|
    ensures InPlaceRuns(fs, ms, root, cfg, threads, oracle)[k] == RunMutantInPlace(fs, ms[k], root, cfg, threads, oracle)
    decreases k
  {
    if k > 0 {
      InPlaceRunsAt(fs, ms[1..], root, cfg, threads, oracle, k - 1);
    }
  }

  /**
   `run_mutants` with the runs taken in list order: every mutant in its own
   copy; the first run without a verdict panics and stops the batch. The
   parallel loop may take the runs in any order: `BatchOrderIrrelevant`
   shows that the order changes neither whether the batch completes nor
   what a completed batch reports.
   */
  function RunBatch(fs: FileSystem, ms: seq<Mutant>, root: Path, tmp: Path, cfg: Config, oracle: Oracle): (b: BatchOutcome)
    ensures b.Stopped? ==> b.failed in ms
    ensures |b.reports| <= |ms|
    ensures forall x :: x in b.reports ==> x.mutant in ms
    decreases |ms|
  {
    if |ms| == 0 then Completed(fs, [])
    else
      var r := RunMutant(fs, ms[0], root, tmp, cfg, oracle);
      if r.Finished? then
        var rest := RunBatch(r.fs, ms[1..], root, tmp, cfg, oracle);
        assert rest.Stopped? ==> rest.failed in ms;
        assert forall x :: x in rest.reports ==> x.mutant in ms;
        PrependReports(ReportOf(cfg.level, ms[0], r.result), rest)
      else Stopped(r.fs, [], ms[0])
  }

  /** Each mutant run on its own against the same project, in a copy. */
  function IsolatedRuns(fs: FileSystem, ms: seq<Mutant>, root: Path, tmp: Path, cfg: Config, oracle: Oracle): (runs: seq<RunOutcome>)
    ensures |runs| == |ms|
    decreases |ms|
  {
    if |ms| == 0 then [] else [RunMutant(fs, ms[0], root, tmp, cfg, oracle)] + IsolatedRuns(fs, ms[1..], root, tmp, cfg, oracle)
  }

  /**
   With a fresh temporary directory and tests that write only below their
   working directory, the isolated batch is the batch over the runs taken
   one by one against the original project, and it never changes the
   project, whether it completes or stops.
   */
  lemma {:induction false} BatchIsRunsAlone(fs: FileSystem, ms: seq<Mutant>, root: Path, tmp: Path, cfg: Config, oracle: Oracle)
    requires Fresh(fs, tmp) && Confined(oracle)
    ensures RunBatch(fs, ms, root, tmp, cfg, oracle) == BatchOfRuns(cfg.level, ms, IsolatedRuns(fs, ms, root, tmp, cfg, oracle), fs)
    ensures RunBatch(fs, ms, root, tmp, cfg, oracle).fs == fs
    decreases |ms|
  {
    if |ms| > 0 {
      RunMutantKeepsProject(fs, ms[0], root, tmp, cfg, oracle);
      if RunMutant(fs, ms[0], root, tmp, cfg, oracle).Finished? {
        BatchIsRunsAlone(fs, ms[1..], root, tmp, cfg, oracle);
      }
    }
  }

  /** What one mutant's isolated run against the project reports. */
  function IsolatedReport(fs: FileSystem, m: Mutant, root: Path, tmp: Path, cfg: Config, oracle: Oracle): seq<Report> {
    var r := RunMutant(fs, m, root, tmp, cfg, oracle);
    if r.Finished? then ReportOf(cfg.level, m, r.result) else []
  }

  /** The isolated report of each mutant, as a function of the mutant. */
  function IsolatedReporter(fs: FileSystem, root: Path, tmp: Path, cfg: Config, oracle: Oracle): Mutant -> seq<Report> {
    m => IsolatedReport(fs, m, root, tmp, cfg, oracle)
  }

  /** The reports of the mutants of a list, each by `f`, in list order. */
  function ReportsBy(f: Mutant -> seq<Report>, ms: seq<Mutant>): seq<Report>
    decreases |ms|
  {
    if |ms| == 0 then [] else f(ms[0]) + ReportsBy(f, ms[1..])
  }

  lemma {:induction false} ReportsByAppend(f: Mutant -> seq<Report>, a: seq<Mutant>, b: seq<Mutant>)
    ensures ReportsBy(f, a + b) == ReportsBy(f, a) + ReportsBy(f, b)
    decreases |a|
  {
    if |a| == 0 {
      assert a + b == b;
    } else {
      assert (a + b)[0] == a[0] && (a + b)[1..] == a[1..] + b;
      ReportsByAppend(f, a[1..], b);
    }
  }

  /** A list with one occurrence taken out holds the rest of its elements. */
  lemma MultisetWithout<T>(s: seq<T>, j: nat)
    requires j < |s|
    ensures s == s[..j] + [s[j]] + s[j + 1..]
    ensures multiset(s[..j] + s[j + 1..]) == multiset(s) - multiset{s[j]}
  {
    assert s == s[..j] + [s[j]] + s[j + 1..];
  }

  /** The reports of a list with `x` placed inside are those of `x` and those of the list without it. */
  lemma ReportsByAround(f: Mutant -> seq<Report>, front: seq<Mutant>, x: Mutant, back: seq<Mutant>)
    ensures multiset(ReportsBy(f, front + [x] + back)) == multiset(f(x)) + multiset(ReportsBy(f, front + back))
  {
    assert front + [x] + back == front + ([x] + back);
    ReportsByAppend(f, front, [x] + back);
    ReportsByAppend(f, front, back);
    assert ([x] + back)[0] == x && ([x] + back)[1..] == back;
  }

  /** The reports of a non-empty list: those of its head and those of the rest. */
  lemma ReportsByHead(f: Mutant -> seq<Report>, ms: seq<Mutant>)
    requires |ms| > 0
    ensures multiset(ReportsBy(f, ms)) == multiset(f(ms[0])) + multiset(ReportsBy(f, ms[1..]))
  {
  }

  /** Two permutations of each other, with their first and `j`-th elements taken out, are still permutations. */
  lemma PermutationWithout(ms: seq<Mutant>, ms': seq<Mutant>, j: nat)
    requires multiset(ms) == multiset(ms') && |ms| > 0 && j < |ms'| && ms'[j] == ms[0]
    ensures multiset(ms[1..]) == multiset(ms'[..j] + ms'[j + 1..])
    ensures ms' == ms'[..j] + [ms[0]] + ms'[j + 1..]
  {
    MultisetWithout(ms', j);
    MultisetWithout(ms, 0);
    assert ms[..0] + ms[1..] == ms[1..];
  }

  /** Reordering the mutants reorders their reports: the same lines, counted with multiplicity. */
  lemma {:induction false} ReportsByPermutation(f: Mutant -> seq<Report>, ms: seq<Mutant>, ms': seq<Mutant>)
    requires multiset(ms) == multiset(ms')
    ensures multiset(ReportsBy(f, ms)) == multiset(ReportsBy(f, ms'))
    decreases |ms|
  {
    if |ms| == 0 {
      assert |ms'| == |multiset(ms')| == 0;
    } else {
      var x := ms[0];
      assert x in multiset(ms');
      var j :| 0 <= j < |ms'| && ms'[j] == x;
      var front, back := ms'[..j], ms'[j + 1..];
      PermutationWithout(ms, ms', j);
      ReportsByPermutation(f, ms[1..], front + back);
      ReportsByAround(f, front, x, back);
      ReportsByHead(f, ms);
    }
  }

  /** Every mutant of the list, run alone against the project, has a verdict. */
  predicate AllFinish(fs: FileSystem, ms: seq<Mutant>, root: Path, tmp: Path, cfg: Config, oracle: Oracle) {
    forall m :: m in ms ==> RunMutant(fs, m, root, tmp, cfg, oracle).Finished?
  }

  /** One step of the isolated batch: the head's run keeps the project, so the rest runs on the project again. */
  lemma IsolatedBatchStep(fs: FileSystem, ms: seq<Mutant>, root: Path, tmp: Path, cfg: Config, oracle: Oracle)
    requires Fresh(fs, tmp) && Confined(oracle) && |ms| > 0
    ensures var r := RunMutant(fs, ms[0], root, tmp, cfg, oracle);
            var rest := RunBatch(fs, ms[1..], root, tmp, cfg, oracle);
      RunBatch(fs, ms, root, tmp, cfg, oracle)
      == if r.Finished? then PrependReports(ReportOf(cfg.level, ms[0], r.result), rest) else Stopped(fs, [], ms[0])
  {
    RunMutantKeepsProject(fs, ms[0], root, tmp, cfg, oracle);
  }

  /**
   With a fresh temporary directory and tests that write only below their
   working directory, the isolated batch completes exactly when every
   mutant's run alone has a verdict, and then reports the runs' verdicts in
   list order.
   */
  lemma {:induction false} IsolatedBatchSpec(fs: FileSystem, ms: seq<Mutant>, root: Path, tmp: Path, cfg: Config, oracle: Oracle)
    requires Fresh(fs, tmp) && Confined(oracle)
    ensures var b := RunBatch(fs, ms, root, tmp, cfg, oracle);
      && (b.Completed? <==> AllFinish(fs, ms, root, tmp, cfg, oracle))
      && (b.Completed? ==> b.reports == ReportsBy(IsolatedReporter(fs, root, tmp, cfg, oracle), ms))
    decreases |ms|
  {
    if |ms| > 0 {
      IsolatedBatchStep(fs, ms, root, tmp, cfg, oracle);
      IsolatedBatchSpec(fs, ms[1..], root, tmp, cfg, oracle);
      assert AllFinish(fs, ms, root, tmp, cfg, oracle)
         <==> RunMutant(fs, ms[0], root, tmp, cfg, oracle).Finished? && AllFinish(fs, ms[1..], root, tmp, cfg, oracle) by {
        assert ms == [ms[0]] + ms[1..];
      }
    }
  }

  /**
   The order in which the parallel loop takes the runs does not matter for
   a batch that completes: with a fresh temporary directory and tests that
   write only below their working directory, any reordering of the list
   completes exactly when the list does, and then reports the same lines,
   counted with multiplicity.
   */
  lemma BatchOrderIrrelevant(fs: FileSystem, ms: seq<Mutant>, ms': seq<Mutant>, root: Path, tmp: Path, cfg: Config, oracle: Oracle)
    requires Fresh(fs, tmp) && Confined(oracle)
    requires multiset(ms) == multiset(ms')
    ensures RunBatch(fs, ms, root, tmp, cfg, oracle).Completed? <==> RunBatch(fs, ms', root, tmp, cfg, oracle).Completed?
    ensures RunBatch(fs, ms, root, tmp, cfg, oracle).Completed?
            ==> multiset(RunBatch(fs, ms, root, tmp, cfg, oracle).reports) == multiset(RunBatch(fs, ms', root, tmp, cfg, oracle).reports)
  {
    IsolatedBatchSpec(fs, ms, root, tmp, cfg, oracle);
    IsolatedBatchSpec(fs, ms', root, tmp, cfg, oracle);
    assert AllFinish(fs, ms, root, tmp, cfg, oracle) <==> AllFinish(fs, ms', root, tmp, cfg, oracle) by {
      forall m
        ensures m in ms <==> m in ms'
      {
        assert m in ms <==> m in multiset(ms);
        assert m in ms' <==> m in multiset(ms');
      }
    }
    ReportsByPermutation(IsolatedReporter(fs, root, tmp, cfg, oracle), ms, ms');
  }
}
