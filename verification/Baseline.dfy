/** run_baseline.py: capture_process, checkpoint_index and main, whose methods do to the
    disk and to the index exactly what the plan says. */
module Baseline {
  import opened Manifests
  import opened Disk
  import opened Plans
  import opened Text
  import opened Wrappers

  // ------------------------------------------------------------- capture_process

  method CleanCapturePrefix(drive: Drive<Doc>, prefix: Path)
    requires drive.Valid()
    modifies drive
    ensures drive.Valid() && drive.log == old(drive.log) + CleanLog(prefix)
  {
    hide CapturePath, Replay, Apply;
    var suffixes := [COMMAND, STDOUT, STDERR, RESULT];
    ghost var start, unlinks := drive.log, CleanLog(prefix);
    for i := 0 to 4
      invariant drive.Valid() && drive.log == start + unlinks[..i]
    {
      drive.Perform(Unlink(CapturePath(prefix, suffixes[i])));
      assert unlinks[..i + 1] == unlinks[..i] + [unlinks[i]];
    }
  }

  /** Cleans up, runs the command and writes its four files; a command with an argument
      that cannot be passed raises once the old files are gone. */
  method CaptureProcess(drive: Drive<Doc>, cfg: Config, job: Job, n: nat) returns (record: Option<Record>)
    requires drive.Valid()
    modifies drive
    ensures drive.Valid()
    ensures Runnable(job.argv) ==>
              && record == Some(RecordFor(cfg, job, cfg.outcomes(n)))
              && drive.log == old(drive.log) + CaptureLog(cfg, job, cfg.outcomes(n))
    ensures !Runnable(job.argv) ==> record.Absent? && drive.log == old(drive.log) + CleanLog(job.prefix)
  {
    hide AtomicWrite, CleanLog, ResultFor, CapturePath, Replay, CommandOf, Runnable;
    ghost var start := drive.log;
    CleanCapturePrefix(drive, job.prefix);
    if !Runnable(job.argv) {
      return Absent;
    }
    var o := cfg.outcomes(n);
    var r := RecordFor(cfg, job, o);
    drive.AtomicWriteBytes(r.commandPath, CommandOf(r.result), cfg.pid, EMPTY);
    drive.AtomicWriteBytes(r.stdoutPath, Raw(o.stdout), cfg.pid, EMPTY);
    drive.AtomicWriteBytes(r.stderrPath, Raw(o.stderr), cfg.pid, EMPTY);
    drive.AtomicWriteBytes(r.resultPath, ResultDoc(r.result), cfg.pid, EMPTY);
    Gather(start, CleanLog(job.prefix),
           AtomicWrite(r.commandPath, CommandOf(r.result), cfg.pid, EMPTY),
           AtomicWrite(r.stdoutPath, Raw(o.stdout), cfg.pid, EMPTY),
           AtomicWrite(r.stderrPath, Raw(o.stderr), cfg.pid, EMPTY),
           AtomicWrite(r.resultPath, ResultDoc(r.result), cfg.pid, EMPTY));
    record := Some(r);
  }

  lemma Gather<T>(s: seq<T>, a: seq<T>, b: seq<T>, c: seq<T>, d: seq<T>, e: seq<T>)
    ensures s + a + b + c + d + e == s + (a + b + c + d + e)
  {
  }

  // ------------------------------------------------------- the index in memory

  /** The dictionary appended to index["cases"], which main keeps a name for and
      appends engine records to. */
  class CaseRecord {
    const id: string
    const targetArgv: seq<string>
    var engines: seq<EngineEntry>

    constructor (id: string, targetArgv: seq<string>)
      ensures this.id == id && this.targetArgv == targetArgv && engines == []
    {
      this.id, this.targetArgv, engines := id, targetArgv, [];
    }

    function Entry(): CaseEntry
      reads this
    {
      CaseEntry(id, targetArgv, engines)
    }
  }

  class RunIndex {
    const runId: string
    var state: Progress
    var build: Option<Record>
    var compilations: seq<Record>
    var cases: seq<CaseRecord>

    constructor (runId: string)
      ensures this.runId == runId && Snapshot() == Index(runId, Running, Absent, [], []) && cases == []
    {
      this.runId := runId;
      state, build, compilations, cases := Running, Absent, [], [];
    }

    /** What json.dumps sees. */
    function Snapshot(): (s: Index)
      reads this, cases
    {
      Index(runId, state, build, compilations, Entries(cases))
    }
  }

  function Entries(cases: seq<CaseRecord>): (r: seq<CaseEntry>)
    reads cases
    ensures |r| == |cases|
  {
    if cases == [] then [] else Entries(cases[..|cases| - 1]) + [cases[|cases| - 1].Entry()]
  }

  method CheckpointIndex(drive: Drive<Doc>, cfg: Config, index: RunIndex)
    requires drive.Valid()
    modifies drive
    ensures drive.Valid() && drive.log == old(drive.log) + Checkpoint(cfg, index.Snapshot())
  {
    drive.AtomicWriteBytes(INDEX_PATH, IndexDoc(index.Snapshot()), cfg.pid, EMPTY);
  }

  // ------------------------------------------------------------------------ main

  /** The run so far: exactly the steps `done`, on disk and in memory. */
  ghost predicate At(cfg: Config, base: seq<Action<Doc>>, drive: Drive<Doc>, index: RunIndex, done: seq<Step>, n: nat)
    reads drive, index, index.cases
  {
    && drive.Valid() && drive.log == base + LogAt(cfg, done)
    && index.Snapshot() == IndexAt(cfg, done) && n == Captured(done)
  }

  /** One more step is done once its work and its checkpoint are in the log. */
  lemma StepDone(cfg: Config, base: seq<Action<Doc>>, done: seq<Step>, step: Step)
    ensures base + LogAt(cfg, done + [step])
         == base + LogAt(cfg, done) + WorkLog(cfg, done, step) + Checkpoint(cfg, Grow(cfg, IndexAt(cfg, done), done, step))
    ensures IndexAt(cfg, done + [step]) == Grow(cfg, IndexAt(cfg, done), done, step)
    ensures Captured(done + [step]) == Captured(done) + if step.Captures() then 1 else 0
  {
    hide WorkLog, Checkpoint, Grow, LogAt, IndexAt, Captured;
    Snoc(cfg, done, step);
    Regroup(base, LogAt(cfg, done), WorkLog(cfg, done, step), Checkpoint(cfg, IndexAt(cfg, done + [step])));
  }

  lemma Regroup<T>(a: seq<T>, b: seq<T>, c: seq<T>, d: seq<T>)
    ensures a + (b + c + d) == a + b + c + d
  {
  }

  /** The run came to a halt inside `steps`: what ran of them is on the disk, and what
      the step that raised had done by then. */
  ghost predicate Halted(cfg: Config, base: seq<Action<Doc>>, drive: Drive<Doc>, done: seq<Step>, steps: seq<Step>)
    reads drive
  {
    drive.Valid() && drive.log == base + LogAt(cfg, done + UpToBad(steps)) + Rest(steps)
  }

  lemma OneStep(step: Step)
    ensures StopsAt([step]) == step.Obstacle()
    ensures step.Bad() ==> UpToBad([step]) == [] && Rest([step]) == step.Remnant()
    ensures !step.Bad() ==> UpToBad([step]) == [step]
  {
    UpToBadIs([step], if step.Bad() then [] else [step]);
  }

  /** A step that raised, having done what is left of it. */
  lemma HaltedAt(cfg: Config, base: seq<Action<Doc>>, drive: Drive<Doc>, done: seq<Step>, step: Step)
    requires step.Bad() && drive.Valid() && drive.log == base + LogAt(cfg, done) + step.Remnant()
    ensures Halted(cfg, base, drive, done, [step])
  {
    OneStep(step);
    assert done + [] == done;
  }

  method RunBuild(drive: Drive<Doc>, cfg: Config, index: RunIndex, ghost base: seq<Action<Doc>>)
    returns (obstacle: Option<Obstacle>)
    requires At(cfg, base, drive, index, [], 0)
    modifies drive, index`build
    ensures obstacle == BuildStep(cfg.manifest).Obstacle()
    ensures obstacle.Absent? ==> At(cfg, base, drive, index, [BuildStep(cfg.manifest)], 1)
    ensures obstacle.Some? ==> Halted(cfg, base, drive, [], [BuildStep(cfg.manifest)])
  {
    hide CaptureLog, CleanLog, Checkpoint, RecordFor, Replay, LogAt, StringList, Runnable;
    var m := cfg.manifest;
    ghost var step := BuildStep(m);
    StepDone(cfg, base, [], step);
    assert [] + [step] == [step];
    assert base + LogAt(cfg, []) + [] == base + LogAt(cfg, []);
    if !StringList(m.buildArgv) {
      HaltedAt(cfg, base, drive, [], step);
      return Some(NotAList);
    }
    if m.buildTimeout.Absent? {
      HaltedAt(cfg, base, drive, [], step);
      return Some(NoTimeout);
    }
    var job := Job(Path(RAW + ["build"], "make"), m.buildArgv, m.buildTimeout, BuildContext);
    var record := CaptureProcess(drive, cfg, job, 0);
    if record.Absent? {
      assert [] + CleanLog(job.prefix) == CleanLog(job.prefix);
      HaltedAt(cfg, base, drive, [], step);
      return Some(NulCharacter);
    }
    assert WorkLog(cfg, [], step) == CaptureLog(cfg, job, cfg.outcomes(0));
    index.build := record;
    CheckpointIndex(drive, cfg, index);
    obstacle := Absent;
  }

  method RunCompile(drive: Drive<Doc>, cfg: Config, index: RunIndex, target: Target, ghost base: seq<Action<Doc>>,
                    ghost done: seq<Step>, n: nat) returns (obstacle: Option<Obstacle>)
    requires At(cfg, base, drive, index, done, n) && cfg.manifest.compileTimeout.Some?
    modifies drive, index`compilations
    ensures obstacle == CompileStep(cfg.manifest, target).Obstacle()
    ensures obstacle.Absent? ==> At(cfg, base, drive, index, done + [CompileStep(cfg.manifest, target)], n + 1)
    ensures obstacle.Some? ==> Halted(cfg, base, drive, done, [CompileStep(cfg.manifest, target)])
  {
    hide CaptureLog, CleanLog, Checkpoint, RecordFor, Replay, LogAt, IndexAt, Captured, StringList, Runnable;
    var step := CompileStep(cfg.manifest, target);
    StepDone(cfg, base, done, step);
    drive.Perform(Unlink(step.output));
    if target.role.Absent? {
      HaltedAt(cfg, base, drive, done, step);
      return Some(NoRole);
    }
    var record := CaptureProcess(drive, cfg, step.job, n);
    if record.Absent? {
      Assoc(base + LogAt(cfg, done), [Unlink(step.output)], CleanLog(step.job.prefix));
      HaltedAt(cfg, base, drive, done, step);
      return Some(NulCharacter);
    }
    Assoc(base + LogAt(cfg, done), [Unlink(step.output)], CaptureLog(cfg, step.job, cfg.outcomes(n)));
    index.compilations := index.compilations + [record.value];
    CheckpointIndex(drive, cfg, index);
    obstacle := Absent;
  }

  /** A step raised after `before`, in the middle of `all`. */
  lemma HaltedInside(cfg: Config, base: seq<Action<Doc>>, drive: Drive<Doc>, done: seq<Step>, before: seq<Step>,
                     steps: seq<Step>, all: seq<Step>)
    requires UpToBad(before) == before && StopsAt(steps).Some? && before + steps <= all
    requires Halted(cfg, base, drive, done + before, steps)
    ensures Halted(cfg, base, drive, done, all) && StopsAt(all) == StopsAt(steps)
  {
    hide UpToBad, Rest, StopsAt, LogAt;
    var after := all[|before + steps|..];
    assert all == before + steps + after;
    StopsInside(before, steps, after);
    Assoc(done, before, UpToBad(steps));
  }

  method RunCompiles(drive: Drive<Doc>, cfg: Config, index: RunIndex, ghost base: seq<Action<Doc>>,
                     ghost done: seq<Step>, n: nat) returns (obstacle: Option<Obstacle>, n': nat)
    requires At(cfg, base, drive, index, done, n) && cfg.manifest.targets != []
    modifies drive, index`compilations
    ensures obstacle == StopsAt(CompileSteps(cfg.manifest, cfg.manifest.targets))
    ensures obstacle.Absent? ==> At(cfg, base, drive, index, done + CompileSteps(cfg.manifest, cfg.manifest.targets), n')
    ensures obstacle.Some? ==> Halted(cfg, base, drive, done, CompileSteps(cfg.manifest, cfg.manifest.targets))
  {
    hide At, Halted, CompileStep, UpToBad, StopsAt;
    var m := cfg.manifest;
    ghost var all := CompileSteps(m, m.targets);
    n' := n;
    assert done + [] == done;
    UpToBadIs([], []);
    if m.compileTimeout.Absent? {
      ghost var first := CompileStep(m, m.targets[0]);
      assert first.Obstacle() == Some(NoTimeout) && first.Remnant() == [] by { NoTimeoutStep(m, m.targets[0]); }
      AtLog(cfg, base, drive, index, done, n);
      assert base + LogAt(cfg, done) + [] == base + LogAt(cfg, done);
      HaltedAt(cfg, base, drive, done, first);
      OneStep(first);
      HaltedInside(cfg, base, drive, done, [], [first], all);
      return Some(NoTimeout), n';
    }
    for i := 0 to |m.targets|
      invariant At(cfg, base, drive, index, done + all[..i], n') && UpToBad(all[..i]) == all[..i]
    {
      ghost var step := CompileStep(m, m.targets[i]);
      assert all[..i + 1] == all[..i] + [step];
      obstacle := RunCompile(drive, cfg, index, m.targets[i], base, done + all[..i], n');
      OneStep(step);
      if obstacle.Some? {
        HaltedInside(cfg, base, drive, done, all[..i], [step], all);
        return;
      }
      n' := n' + 1;
      UpToBadAppend(all[..i], [step]);
      Assoc(done, all[..i], [step]);
    }
    assert all[..|m.targets|] == all;
    obstacle := Absent;
  }

  lemma NoTimeoutStep(m: Manifest, t: Target)
    requires m.compileTimeout.Absent?
    ensures CompileStep(m, t).Obstacle() == Some(NoTimeout) && CompileStep(m, t).Remnant() == []
  {
  }

  /** case_record["engines"].append(...): the index sees it, since it holds the same
      dictionary. */
  method AppendEngine(index: RunIndex, caseRecord: CaseRecord, entry: EngineEntry)
    requires index.cases != [] && index.cases[|index.cases| - 1] == caseRecord
    requires caseRecord !in index.cases[..|index.cases| - 1]
    modifies caseRecord
    ensures var before := old(index.Snapshot());
            var last := before.cases[|before.cases| - 1];
            index.Snapshot() == before.(cases := before.cases[|before.cases| - 1 := last.(engines := last.engines + [entry])])
  {
    ghost var last := |index.cases| - 1;
    ghost var entries := Entries(index.cases);
    assert entries == Entries(index.cases[..last]) + [caseRecord.Entry()];
    caseRecord.engines := caseRecord.engines + [entry];
    assert Entries(index.cases) == entries[last := caseRecord.Entry()];
  }

  method RunEngineStep(drive: Drive<Doc>, cfg: Config, index: RunIndex, caseRecord: CaseRecord, c: Case, name: string,
                       ghost base: seq<Action<Doc>>, ghost done: seq<Step>, n: nat) returns (obstacle: Option<Obstacle>)
    requires At(cfg, base, drive, index, done, n)
    requires index.cases != [] && index.cases[|index.cases| - 1] == caseRecord
    requires caseRecord !in index.cases[..|index.cases| - 1]
    modifies drive, caseRecord
    ensures obstacle == EngineStep(cfg.manifest, c, name).Obstacle()
    ensures obstacle.Absent? ==> At(cfg, base, drive, index, done + [EngineStep(cfg.manifest, c, name)], n + 1)
    ensures obstacle.Some? ==> Halted(cfg, base, drive, done, [EngineStep(cfg.manifest, c, name)])
  {
    hide CaptureLog, CleanLog, Checkpoint, RecordFor, Replay, LogAt, IndexAt, Captured, Entries, StringList, Runnable;
    hide PrefixArgv;
    var step := EngineStep(cfg.manifest, c, name);
    StepDone(cfg, base, done, step);
    if !StringList(PrefixArgv(cfg.manifest, name)) {
      assert base + LogAt(cfg, done) + [] == base + LogAt(cfg, done);
      HaltedAt(cfg, base, drive, done, step);
      return Some(NotAList);
    }
    var record := CaptureProcess(drive, cfg, step.job, n);
    if record.Absent? {
      assert [] + CleanLog(step.job.prefix) == CleanLog(step.job.prefix);
      HaltedAt(cfg, base, drive, done, step);
      return Some(NulCharacter);
    }
    assert WorkLog(cfg, done, step) == CaptureLog(cfg, step.job, cfg.outcomes(n));
    AppendEngine(index, caseRecord, EngineEntry(name, record.value));
    CheckpointIndex(drive, cfg, index);
    obstacle := Absent;
  }

  method OpenCaseStep(drive: Drive<Doc>, cfg: Config, index: RunIndex, c: Case,
                      ghost base: seq<Action<Doc>>, ghost done: seq<Step>, n: nat) returns (caseRecord: CaseRecord)
    requires At(cfg, base, drive, index, done, n)
    modifies drive, index`cases
    ensures At(cfg, base, drive, index, done + [OpenCase(c.id, c.targetArgv)], n)
    ensures fresh(caseRecord) && index.cases == old(index.cases) + [caseRecord]
  {
    hide Checkpoint, Replay, LogAt, IndexAt, Captured;
    ghost var step := OpenCase(c.id, c.targetArgv);
    StepDone(cfg, base, done, step);
    caseRecord := new CaseRecord(c.id, c.targetArgv);
    ghost var before := index.cases;
    index.cases := index.cases + [caseRecord];
    assert index.cases[..|before|] == before;
    assert WorkLog(cfg, done, step) == [];
    assert base + LogAt(cfg, done) + [] == base + LogAt(cfg, done);
    CheckpointIndex(drive, cfg, index);
  }

  method RunCase(drive: Drive<Doc>, cfg: Config, index: RunIndex, c: Case,
                 ghost base: seq<Action<Doc>>, ghost done: seq<Step>, n: nat)
    returns (obstacle: Option<Obstacle>, n': nat)
    requires At(cfg, base, drive, index, done, n)
    modifies drive, index`cases
    ensures obstacle == StopsAt(CaseBlock(cfg.manifest, c))
    ensures obstacle.Absent? ==> At(cfg, base, drive, index, done + CaseBlock(cfg.manifest, c), n')
    ensures obstacle.Some? ==> Halted(cfg, base, drive, done, CaseBlock(cfg.manifest, c))
  {
    hide At, Halted, Entries, UpToBad, StopsAt, EngineStep;
    var m := cfg.manifest;
    ghost var all := CaseBlock(m, c);
    ghost var before := index.cases;
    var caseRecord := OpenCaseStep(drive, cfg, index, c, base, done, n);
    assert index.cases[..|before|] == before;
    n' := n;
    assert all[..1] == [OpenCase(c.id, c.targetArgv)];
    OneStep(all[0]);
    for i := 0 to |c.engines|
      invariant fresh(caseRecord) && index.cases == before + [caseRecord] && caseRecord !in before
      invariant At(cfg, base, drive, index, done + all[..1 + i], n') && UpToBad(all[..1 + i]) == all[..1 + i]
    {
      var name := c.engines[i];
      ghost var step := EngineStep(m, c, name);
      assert all[1 + i] == step && all[..2 + i] == all[..1 + i] + [step];
      obstacle := RunEngineStep(drive, cfg, index, caseRecord, c, name, base, done + all[..1 + i], n');
      OneStep(step);
      if obstacle.Some? {
        HaltedInside(cfg, base, drive, done, all[..1 + i], [step], all);
        return;
      }
      n' := n' + 1;
      UpToBadAppend(all[..1 + i], [step]);
      Assoc(done, all[..1 + i], [step]);
    }
    assert all[..1 + |c.engines|] == all;
    obstacle := Absent;
  }

  method RunCases(drive: Drive<Doc>, cfg: Config, index: RunIndex, ghost base: seq<Action<Doc>>,
                  ghost done: seq<Step>, n: nat) returns (obstacle: Option<Obstacle>, ghost n': nat)
    requires At(cfg, base, drive, index, done, n)
    modifies drive, index`cases
    ensures obstacle == StopsAt(CaseSteps(cfg.manifest, cfg.manifest.cases))
    ensures obstacle.Absent? ==> At(cfg, base, drive, index, done + CaseSteps(cfg.manifest, cfg.manifest.cases), n')
    ensures obstacle.Some? ==> Halted(cfg, base, drive, done, CaseSteps(cfg.manifest, cfg.manifest.cases))
  {
    hide At, Halted, CaseBlock, UpToBad, StopsAt, CaseSteps;
    var m, k := cfg.manifest, n;
    assert m.cases[..0] == [] && CaseSteps(m, []) == [] by { NoSteps(m); }
    UpToBadIs([], []);
    assert done + [] == done;
    for i := 0 to |m.cases|
      invariant At(cfg, base, drive, index, done + CaseSteps(m, m.cases[..i]), k)
      invariant UpToBad(CaseSteps(m, m.cases[..i])) == CaseSteps(m, m.cases[..i])
    {
      ghost var before, block := CaseSteps(m, m.cases[..i]), CaseBlock(m, m.cases[i]);
      obstacle, k := RunCase(drive, cfg, index, m.cases[i], base, done + before, k);
      CaseStepsNext(m, m.cases, i);
      if obstacle.Some? {
        HaltedInside(cfg, base, drive, done, before, block, CaseSteps(m, m.cases));
        return obstacle, k;
      }
      UpToBadAppend(before, block);
      Assoc(done, before, block);
    }
    assert m.cases[..|m.cases|] == m.cases;
    obstacle, n' := Absent, k;
  }

  lemma NoSteps(m: Manifest)
    ensures CaseSteps(m, []) == []
  {
  }

  lemma {:induction false} CaseStepsNext(m: Manifest, cases: seq<Case>, i: nat)
    requires i < |cases|
    ensures CaseSteps(m, cases[..i + 1]) == CaseSteps(m, cases[..i]) + CaseBlock(m, cases[i])
    ensures CaseSteps(m, cases[..i]) + CaseBlock(m, cases[i]) <= CaseSteps(m, cases)
  {
    hide CaseBlock;
    assert cases[..i + 1][..i] == cases[..i];
    var front := cases[..|cases| - 1];
    if i < |front| {
      CaseStepsNext(m, front, i);
      assert front[..i] == cases[..i];
    } else {
      assert front == cases[..i];
    }
  }

  lemma AtLog(cfg: Config, base: seq<Action<Doc>>, drive: Drive<Doc>, index: RunIndex, done: seq<Step>, n: nat)
    requires At(cfg, base, drive, index, done, n)
    ensures drive.Valid() && drive.log == base + LogAt(cfg, done) && n == Captured(done)
  {
  }

  method StartRun(drive: Drive<Doc>, cfg: Config) returns (index: RunIndex)
    requires drive.Valid()
    modifies drive
    ensures At(cfg, old(drive.log), drive, index, [], 0) && fresh(index)
  {
    hide AtomicWrite, Replay;
    ghost var base := drive.log;
    drive.AtomicWriteBytes(ENVIRONMENT_PATH, EnvironmentDoc(cfg.runId, cfg.environment), cfg.pid, EMPTY);
    index := new RunIndex(cfg.runId);
    CheckpointIndex(drive, cfg, index);
    Assoc(base, AtomicWrite(ENVIRONMENT_PATH, EnvironmentDoc(cfg.runId, cfg.environment), cfg.pid, EMPTY),
          Checkpoint(cfg, Initial(cfg)));
  }

  method FinishRun(drive: Drive<Doc>, cfg: Config, index: RunIndex, ghost base: seq<Action<Doc>>,
                   ghost done: seq<Step>, ghost n: nat)
    requires At(cfg, base, drive, index, done, n)
    modifies drive, index`state
    ensures At(cfg, base, drive, index, done + [Finish], n)
  {
    hide Checkpoint, Replay, LogAt, IndexAt, Captured;
    StepDone(cfg, base, done, Finish);
    assert base + LogAt(cfg, done) + [] == base + LogAt(cfg, done);
    index.state := Complete;
    CheckpointIndex(drive, cfg, index);
  }

  datatype RunError = BadManifest(error: Manifests.Error) | Stopped(obstacle: Obstacle)

  lemma HaltedWhole(cfg: Config, base: seq<Action<Doc>>, drive: Drive<Doc>, before: seq<Step>, steps: seq<Step>)
    requires UpToBad(before) == before && StopsAt(steps).Some? && before + steps <= FullPlan(cfg.manifest)
    requires Halted(cfg, base, drive, before, steps)
    ensures drive.Valid() && drive.log == base + RunLog(cfg) && StopsAt(FullPlan(cfg.manifest)) == StopsAt(steps)
  {
    hide UpToBad, Rest, StopsAt, LogAt, FullPlan;
    assert [] + before == before;
    HaltedInside(cfg, base, drive, [], before, steps, FullPlan(cfg.manifest));
    var plan := Plan(cfg.manifest);
    assert [] + plan == plan;
    Assoc(base, LogAt(cfg, plan), Rest(FullPlan(cfg.manifest)));
  }

  /** main(): a rejected manifest leaves the disk alone; otherwise the disk sees exactly
      the log of the run, up to the first obstacle, and there is none exactly when all
      that main reads unchecked is there and can be passed on. */
  method RunBaseline(drive: Drive<Doc>, cfg: Config) returns (error: Option<RunError>)
    requires drive.Valid()
    modifies drive
    ensures drive.Valid()
    ensures error.Some? && error.value.BadManifest? <==> !Accepted(cfg.manifest)
    ensures error.Some? && error.value.BadManifest? ==> Rejected(cfg.manifest, error.value.error)
    ensures !Accepted(cfg.manifest) ==> drive.log == old(drive.log)
    ensures Accepted(cfg.manifest) ==> drive.log == old(drive.log) + RunLog(cfg)
    ensures error.Absent? <==> Accepted(cfg.manifest) && ReadsThrough(cfg.manifest)
    ensures error.Some? && error.value.Stopped? ==> StopsAt(FullPlan(cfg.manifest)) == Some(error.value.obstacle)
  {
    hide Checkpoint, Replay, Accepted, Rejected, At, Halted, CompileSteps, CaseSteps, LogAt, RunLog, StopsAt, UpToBad;
    hide BuildStep, ReadsThrough, Step.Obstacle;
    var m := cfg.manifest;
    ghost var base := drive.log;
    var bad := ValidateManifest(m);
    if bad.Some? {
      return Some(BadManifest(bad.value));
    }
    AcceptedCounts(m);
    PlanIsFull(m);
    var index := StartRun(drive, cfg);
    ghost var build, compiles, cases := [BuildStep(m)], CompileSteps(m, m.targets), CaseSteps(m, m.cases);
    OneStep(BuildStep(m));
    UpToBadIs([], []);
    assert [] + build == build;
    assert FullPlan(m) == build + compiles + cases + [Finish];
    var obstacle := RunBuild(drive, cfg, index, base);
    if obstacle.Some? {
      HaltedWhole(cfg, base, drive, [], build);
      return Some(Stopped(obstacle.value));
    }
    var n;
    obstacle, n := RunCompiles(drive, cfg, index, base, build, 1);
    if obstacle.Some? {
      HaltedWhole(cfg, base, drive, build, compiles);
      return Some(Stopped(obstacle.value));
    }
    UpToBadAppend(build, compiles);
    ghost var k;
    obstacle, k := RunCases(drive, cfg, index, base, build + compiles, n);
    if obstacle.Some? {
      HaltedWhole(cfg, base, drive, build + compiles, cases);
      return Some(Stopped(obstacle.value));
    }
    UpToBadAppend(build + compiles, cases);
    FinishRun(drive, cfg, index, base, build + compiles + cases, k);
    AtLog(cfg, base, drive, index, FullPlan(m), k);
    OneStep(Finish);
    FinishGood();
    UpToBadAppend(build + compiles + cases, [Finish]);
    WholeLog(cfg, base);
    return Absent;
  }

  lemma FinishGood()
    ensures !Finish.Bad()
  {
  }

  lemma WholeLog(cfg: Config, base: seq<Action<Doc>>)
    requires UpToBad(FullPlan(cfg.manifest)) == FullPlan(cfg.manifest)
    ensures base + LogAt(cfg, FullPlan(cfg.manifest)) == base + RunLog(cfg)
    ensures StopsAt(FullPlan(cfg.manifest)).Absent? && Plan(cfg.manifest) == FullPlan(cfg.manifest)
  {
    hide FullPlan, LogAt;
    var log := LogAt(cfg, FullPlan(cfg.manifest));
    assert log + [] == log;
  }
}
