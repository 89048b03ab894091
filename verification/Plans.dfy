/** What a manifest asks for, step by step, where a run of it stops, and what the run
    leaves behind: the records, the index and the log of disk actions. */
module Plans {
  import opened Manifests
  import opened Disk
  import opened Text
  import opened Wrappers

  // -------------------------------------------------------------- what is stored

  type Bytes = seq<bv8>

  datatype Clock = Clock(startedAt: string, completedAt: string, seconds: real)

  /** What executing a command comes to. */
  datatype Outcome = Outcome(stdout: Bytes, stderr: Bytes, returncode: Option<int>, timedOut: bool,
                             spawnError: Option<string>, clock: Clock)

  datatype Context =
    | BuildContext
    | CompileContext(target: Target)
    | CaseContext(caseId: string, engine: string, prefixArgv: seq<string>, targetArgv: seq<string>)

  datatype Result = Result(runId: string, argv: seq<string>, command: string, cwd: string, timeout: Option<real>,
                           context: Context, timedOut: bool, returncode: Option<int>, exitStatus: Option<int>,
                           signal: Option<int>, spawnError: Option<string>, clock: Clock,
                           stdoutBytes: nat, stderrBytes: nat)

  /** What capture_process returns: where its four files are, and the result. */
  datatype Record = Record(prefix: Path, commandPath: Path, stdoutPath: Path, stderrPath: Path, resultPath: Path,
                           result: Result)

  datatype EngineEntry = EngineEntry(name: string, record: Record)
  datatype CaseEntry = CaseEntry(id: string, targetArgv: seq<string>, engines: seq<EngineEntry>)
  datatype Progress = Running | Complete
  datatype Index = Index(runId: string, state: Progress, build: Option<Record>, compilations: seq<Record>,
                         cases: seq<CaseEntry>)

  datatype Doc =
    | Raw(bytes: Bytes)
    | CommandDoc(runId: string, argv: seq<string>, command: string, cwd: string, timeout: Option<real>,
                 context: Context)
    | ResultDoc(result: Result)
    | IndexDoc(index: Index)
    | EnvironmentDoc(environmentOf: string, facts: string)

  const EMPTY := Raw([])

  const RAW: seq<string> := ["portfolio_audit", "raw"]
  const INDEX_PATH := Path(RAW, "run_index.json")
  const ENVIRONMENT_PATH := Path(RAW, "environment.json")

  /** One run: its identity and surroundings, its manifest, what its processes will come
      to, and shlex.join. */
  datatype Config = Config(runId: string, pid: nat, cwd: string, environment: string, manifest: Manifest,
                           outcomes: nat -> Outcome, shellJoin: seq<string> -> string)

  // ------------------------------------------------------------- capture_process

  const COMMAND := ".command.json"
  const STDOUT := ".stdout"
  const STDERR := ".stderr"
  const RESULT := ".result.json"

  function CapturePath(prefix: Path, suffix: string): Path {
    Path(prefix.dir, prefix.name + suffix)
  }

  /** A command to capture: where its files go, what is run and for how long. */
  datatype Job = Job(prefix: Path, argv: seq<string>, timeout: Option<real>, context: Context)

  /** A return code is either an exit status or, negated, the signal that ended the
      process; without one there is neither. */
  function ResultFor(cfg: Config, job: Job, o: Outcome): (r: Result)
    ensures r.exitStatus.Some? ==> r.returncode == r.exitStatus && r.exitStatus.value >= 0
    ensures r.signal.Some? ==> r.returncode == Some(-r.signal.value) && r.signal.value > 0
    ensures r.returncode == o.returncode && (r.returncode.Some? <==> r.exitStatus.Some? || r.signal.Some?)
    ensures r.stdoutBytes == |o.stdout| && r.stderrBytes == |o.stderr| && r.timedOut == o.timedOut
    ensures r.runId == cfg.runId && r.argv == job.argv && r.timeout == job.timeout && r.context == job.context
    ensures r.command == cfg.shellJoin(job.argv) && r.cwd == cfg.cwd && r.spawnError == o.spawnError && r.clock == o.clock
  {
    Result(cfg.runId, job.argv, cfg.shellJoin(job.argv), cfg.cwd, job.timeout, job.context, o.timedOut, o.returncode,
           if o.returncode.Some? && o.returncode.value >= 0 then o.returncode else Absent,
           if o.returncode.Some? && o.returncode.value < 0 then Some(-o.returncode.value) else Absent,
           o.spawnError, o.clock, |o.stdout|, |o.stderr|)
  }

  /** The command file of a result. */
  function CommandOf(r: Result): (d: Doc)
    ensures d.CommandDoc? && d.runId == r.runId && d.argv == r.argv && d.command == r.command
    ensures d.cwd == r.cwd && d.timeout == r.timeout && d.context == r.context
  {
    CommandDoc(r.runId, r.argv, r.command, r.cwd, r.timeout, r.context)
  }

  function RecordFor(cfg: Config, job: Job, o: Outcome): Record {
    Record(job.prefix, CapturePath(job.prefix, COMMAND), CapturePath(job.prefix, STDOUT),
           CapturePath(job.prefix, STDERR), CapturePath(job.prefix, RESULT), ResultFor(cfg, job, o))
  }

  function CleanLog(prefix: Path): seq<Action<Doc>> {
    [Unlink(CapturePath(prefix, COMMAND)), Unlink(CapturePath(prefix, STDOUT)),
     Unlink(CapturePath(prefix, STDERR)), Unlink(CapturePath(prefix, RESULT))]
  }

  /** Any old files of the capture go first; then its four files are written. */
  function CaptureLog(cfg: Config, job: Job, o: Outcome): seq<Action<Doc>> {
    var r := RecordFor(cfg, job, o);
    CleanLog(job.prefix)
    + AtomicWrite(r.commandPath, CommandOf(r.result), cfg.pid, EMPTY)
    + AtomicWrite(r.stdoutPath, Raw(o.stdout), cfg.pid, EMPTY)
    + AtomicWrite(r.stderrPath, Raw(o.stderr), cfg.pid, EMPTY)
    + AtomicWrite(r.resultPath, ResultDoc(r.result), cfg.pid, EMPTY)
  }

  // ------------------------------------------------------------------ the plan

  /** What main can raise at, in a manifest that was accepted: a command that is not a
      list of strings, a missing timeout or role, or an argument that cannot be passed. */
  datatype Obstacle = NotAList | NoTimeout | NoRole | NulCharacter

  datatype Step =
    | Build(job: Job)
    | Compile(job: Job, output: Path, role: Option<string>)
    | OpenCase(id: string, targetArgv: seq<string>)
    | RunEngine(job: Job, name: string, prefixArgv: seq<string>)
    | Finish
  {
    predicate Captures() {
      Build? || Compile? || RunEngine?
    }

    /** What stops the run at this step, in the order in which main comes across it. */
    function Obstacle(): Option<Obstacle> {
      if !Captures() then Absent
      else if (Build? && !StringList(job.argv)) || (RunEngine? && !StringList(prefixArgv)) then Some(NotAList)
      else if job.timeout.Absent? then Some(NoTimeout)
      else if Compile? && role.Absent? then Some(NoRole)
      else if !Runnable(job.argv) then Some(NulCharacter)
      else Absent
    }

    predicate Bad() {
      Obstacle().Some?
    }

    /** What a step that raises has done to the disk by then. */
    function Remnant(): seq<Action<Doc>> {
      match Obstacle()
      case Some(NoRole) => if Compile? then [Unlink(output)] else []
      case Some(NulCharacter) =>
        (if Compile? then [Action<Doc>.Unlink(output)] else []) + if Captures() then CleanLog(job.prefix) else []
      case _ => []
    }
  }

  function BuildStep(m: Manifest): Step {
    Build(Job(Path(RAW + ["build"], "make"), m.buildArgv, m.buildTimeout, BuildContext))
  }

  function CompileStep(m: Manifest, t: Target): Step {
    Compile(Job(Path(RAW + ["compile"], t.output.name),
                [m.compiler] + m.compilerFlags + [t.source.text, "-o", t.output.text], m.compileTimeout, CompileContext(t)),
            t.entry, t.role)
  }

  function PrefixArgv(m: Manifest, name: string): seq<string> {
    var e := FindEngine(m.engines, name);
    if e.Some? then e.value.prefixArgv else []
  }

  function EngineStep(m: Manifest, c: Case, name: string): Step {
    var prefixArgv := PrefixArgv(m, name);
    RunEngine(Job(Path(RAW + ["cases", c.id], name), prefixArgv + c.targetArgv, Some(m.caseTimeout),
                  CaseContext(c.id, name, prefixArgv, c.targetArgv)), name, prefixArgv)
  }

  function CompileSteps(m: Manifest, targets: seq<Target>): (steps: seq<Step>)
    ensures |steps| == |targets|
    ensures forall i :: 0 <= i < |targets| ==> steps[i] == CompileStep(m, targets[i])
  {
    seq(|targets|, (i: nat) requires i < |targets| => CompileStep(m, targets[i]))
  }

  function EngineSteps(m: Manifest, c: Case, names: seq<string>): (steps: seq<Step>)
    ensures |steps| == |names|
    ensures forall i :: 0 <= i < |names| ==> steps[i] == EngineStep(m, c, names[i])
  {
    seq(|names|, (i: nat) requires i < |names| => EngineStep(m, c, names[i]))
  }

  function CaseBlock(m: Manifest, c: Case): seq<Step> {
    [OpenCase(c.id, c.targetArgv)] + EngineSteps(m, c, c.engines)
  }

  function CaseSteps(m: Manifest, cases: seq<Case>): seq<Step> {
    if cases == [] then [] else CaseSteps(m, cases[..|cases| - 1]) + CaseBlock(m, cases[|cases| - 1])
  }

  /** Everything a manifest asks for, in its order. */
  function FullPlan(m: Manifest): seq<Step> {
    [BuildStep(m)] + (CompileSteps(m, m.targets) + (CaseSteps(m, m.cases) + [Finish]))
  }

  /** The part of a plan that is carried out: up to the first step that raises. */
  function UpToBad(steps: seq<Step>): (r: seq<Step>)
    ensures r <= steps
    ensures r == steps || steps[|r|].Bad()
    ensures forall i :: 0 <= i < |r| ==> !r[i].Bad()
  {
    if steps == [] || steps[0].Bad() then [] else [steps[0]] + UpToBad(steps[1..])
  }

  lemma UpToBadIs(all: seq<Step>, steps: seq<Step>)
    requires steps <= all && (steps == all || all[|steps|].Bad())
    requires forall i :: 0 <= i < |steps| ==> !steps[i].Bad()
    ensures UpToBad(all) == steps
  {
  }

  /** What runs of two plans, one after the other. */
  lemma UpToBadAppend(a: seq<Step>, b: seq<Step>)
    ensures UpToBad(a + b) == if UpToBad(a) == a then a + UpToBad(b) else UpToBad(a)
  {
    hide Step.Bad, UpToBad;
    var ran, more := UpToBad(a), UpToBad(b);
    if ran == a {
      assert (a + b)[|a|..] == b;
      assert |more| < |b| ==> (a + b)[|a| + |more|] == b[|more|];
      UpToBadIs(a + b, a + more);
    } else {
      UpToBadIs(a + b, ran);
    }
  }

  /** What stops a run of the steps, if anything. */
  function StopsAt(steps: seq<Step>): (o: Option<Obstacle>)
    ensures o.Absent? <==> UpToBad(steps) == steps
  {
    var ran := UpToBad(steps);
    if |ran| < |steps| then steps[|ran|].Obstacle() else Absent
  }

  /** What the step that stops the run leaves on the disk. */
  function Rest(steps: seq<Step>): seq<Action<Doc>> {
    var ran := UpToBad(steps);
    if |ran| < |steps| then steps[|ran|].Remnant() else []
  }

  /** A run that comes through the first steps stops in the next ones, if these stop it. */
  lemma StopsInside(before: seq<Step>, steps: seq<Step>, after: seq<Step>)
    requires UpToBad(before) == before
    ensures StopsAt(steps).Absent? ==> UpToBad(before + steps) == before + steps
    ensures StopsAt(steps).Some? ==>
              && UpToBad(before + steps + after) == before + UpToBad(steps)
              && StopsAt(before + steps + after) == StopsAt(steps)
              && Rest(before + steps + after) == Rest(steps)
  {
    hide Step.Bad, Step.Obstacle, Step.Remnant, UpToBad;
    UpToBadAppend(before, steps);
    UpToBadAppend(before + steps, after);
    var ran, all := UpToBad(steps), before + steps + after;
    assert |ran| < |steps| ==> all[|before| + |ran|] == steps[|ran|];
  }

  lemma NoneBad(steps: seq<Step>)
    ensures UpToBad(steps) == steps <==> forall s <- steps :: !s.Bad()
  {
    var ran := UpToBad(steps);
    assert |ran| < |steps| ==> steps[|ran|] in steps;
  }

  function Plan(m: Manifest): seq<Step> {
    UpToBad(FullPlan(m))
  }

  // ------------------------------------------------- the run as a specification

  function Captured(steps: seq<Step>): nat {
    if steps == [] then 0 else Captured(steps[..|steps| - 1]) + if steps[|steps| - 1].Captures() then 1 else 0
  }

  /** The record a step's capture yields when `done` went before it. */
  function RecordOf(cfg: Config, done: seq<Step>, step: Step): Record
    requires step.Captures()
  {
    RecordFor(cfg, step.job, cfg.outcomes(Captured(done)))
  }

  ghost function CapturesIn(steps: seq<Step>): set<int> {
    set i | 0 <= i < |steps| && steps[i].Captures()
  }

  lemma {:induction false} CapturedCounts(steps: seq<Step>)
    ensures Captured(steps) == |CapturesIn(steps)|
  {
    if steps != [] {
      var n := |steps| - 1;
      CapturedCounts(steps[..n]);
      assert CapturesIn(steps) == CapturesIn(steps[..n]) + if steps[n].Captures() then {n} else {};
    }
  }

  /** Each record is that of the step's own command: the n-th capture of a run records what
      its n-th command came to. */
  lemma OutcomeInTurn(cfg: Config, done: seq<Step>, step: Step)
    requires step.Captures()
    ensures RecordOf(cfg, done, step) == RecordFor(cfg, step.job, cfg.outcomes(|CapturesIn(done)|))
  {
    CapturedCounts(done);
  }

  function Initial(cfg: Config): Index {
    Index(cfg.runId, Running, Absent, [], [])
  }

  /** How a step changes the index. */
  function Grow(cfg: Config, index: Index, done: seq<Step>, step: Step): Index {
    match step
    case Build(_) => index.(build := Some(RecordOf(cfg, done, step)))
    case Compile(_, _, _) => index.(compilations := index.compilations + [RecordOf(cfg, done, step)])
    case OpenCase(id, targetArgv) => index.(cases := index.cases + [CaseEntry(id, targetArgv, [])])
    case RunEngine(_, name, _) =>
      if index.cases == [] then index
      else
        var last := index.cases[|index.cases| - 1];
        index.(cases := index.cases[|index.cases| - 1 :=
                          last.(engines := last.engines + [EngineEntry(name, RecordOf(cfg, done, step))])])
    case Finish => index.(state := Complete)
  }

  function IndexAt(cfg: Config, done: seq<Step>): Index {
    if done == [] then Initial(cfg)
    else
      var front := done[..|done| - 1];
      Grow(cfg, IndexAt(cfg, front), front, done[|done| - 1])
  }

  function Checkpoint(cfg: Config, index: Index): seq<Action<Doc>> {
    AtomicWrite(INDEX_PATH, IndexDoc(index), cfg.pid, EMPTY)
  }

  /** What a step does before its checkpoint. */
  function WorkLog(cfg: Config, done: seq<Step>, step: Step): seq<Action<Doc>> {
    (if step.Compile? then [Unlink(step.output)] else [])
    + if step.Captures() then CaptureLog(cfg, step.job, cfg.outcomes(Captured(done))) else []
  }

  function StepLog(cfg: Config, done: seq<Step>, step: Step): seq<Action<Doc>> {
    WorkLog(cfg, done, step) + Checkpoint(cfg, IndexAt(cfg, done + [step]))
  }

  function Prologue(cfg: Config): seq<Action<Doc>> {
    AtomicWrite(ENVIRONMENT_PATH, EnvironmentDoc(cfg.runId, cfg.environment), cfg.pid, EMPTY) + Checkpoint(cfg, Initial(cfg))
  }

  function LogAt(cfg: Config, done: seq<Step>): seq<Action<Doc>> {
    if done == [] then Prologue(cfg)
    else LogAt(cfg, done[..|done| - 1]) + StepLog(cfg, done[..|done| - 1], done[|done| - 1])
  }

  lemma Snoc(cfg: Config, done: seq<Step>, step: Step)
    ensures LogAt(cfg, done + [step])
         == LogAt(cfg, done) + WorkLog(cfg, done, step) + Checkpoint(cfg, IndexAt(cfg, done + [step]))
    ensures IndexAt(cfg, done + [step]) == Grow(cfg, IndexAt(cfg, done), done, step)
    ensures Captured(done + [step]) == Captured(done) + if step.Captures() then 1 else 0
  {
    assert (done + [step])[..|done|] == done;
    Assoc(LogAt(cfg, done), WorkLog(cfg, done, step), Checkpoint(cfg, IndexAt(cfg, done + [step])));
  }

  /** Everything that a run does to the disk. */
  function RunLog(cfg: Config): seq<Action<Doc>> {
    LogAt(cfg, Plan(cfg.manifest)) + Rest(FullPlan(cfg.manifest))
  }

  // ------------------------------------------------ when a plan is carried out whole

  predicate BuildReads(m: Manifest) {
    StringList(m.buildArgv) && m.buildTimeout.Some? && Runnable(m.buildArgv)
  }

  predicate CompilesRead(m: Manifest) {
    m.compileTimeout.Some? && forall t <- m.targets :: t.role.Some?
  }

  predicate CasesRead(m: Manifest) {
    && (forall e <- ENGINES :: StringList(PrefixArgv(m, e)) && Runnable(PrefixArgv(m, e)))
    && forall c <- m.cases :: Runnable(c.targetArgv)
  }

  /** All that main reads of a manifest without validate_manifest having looked at it. */
  predicate ReadsThrough(m: Manifest) {
    BuildReads(m) && CompilesRead(m) && CasesRead(m)
  }

  /** In which order main comes across the obstacles of each kind of step. */
  lemma ObstaclesMet(m: Manifest, t: Target, c: Case, name: string)
    ensures BuildStep(m).Obstacle()
         == if !StringList(m.buildArgv) then Some(NotAList)
            else if m.buildTimeout.Absent? then Some(NoTimeout)
            else if !Runnable(m.buildArgv) then Some(NulCharacter) else Absent
    ensures m.compileTimeout.Absent? ==> CompileStep(m, t).Obstacle() == Some(NoTimeout)
    ensures m.compileTimeout.Some? && t.role.Absent? ==> CompileStep(m, t).Obstacle() == Some(NoRole)
    ensures !StringList(PrefixArgv(m, name)) ==> EngineStep(m, c, name).Obstacle() == Some(NotAList)
    ensures StringList(PrefixArgv(m, name)) && !Runnable(PrefixArgv(m, name) + c.targetArgv) ==>
              EngineStep(m, c, name).Obstacle() == Some(NulCharacter)
  {
    hide StringList, Runnable, PrefixArgv;
  }

  /** What a step leaves when it raises: nothing, until a compile step has removed the old
      output, or a capture its four old files. */
  lemma RemnantsLeft(m: Manifest, t: Target, c: Case, name: string)
    ensures BuildStep(m).Obstacle() in {Some(NotAList), Some(NoTimeout)} ==> BuildStep(m).Remnant() == []
    ensures BuildStep(m).Obstacle() == Some(NulCharacter) ==>
              BuildStep(m).Remnant() == FourUnlinks(["portfolio_audit", "raw", "build"], "make")
    ensures CompileStep(m, t).Obstacle() == Some(NoTimeout) ==> CompileStep(m, t).Remnant() == []
    ensures CompileStep(m, t).Obstacle() == Some(NoRole) ==> CompileStep(m, t).Remnant() == [Unlink(t.entry)]
    ensures EngineStep(m, c, name).Obstacle() == Some(NotAList) ==> EngineStep(m, c, name).Remnant() == []
    ensures EngineStep(m, c, name).Obstacle() == Some(NulCharacter) ==>
              EngineStep(m, c, name).Remnant() == FourUnlinks(["portfolio_audit", "raw", "cases", c.id], name)
  {
    hide StringList, Runnable, PrefixArgv;
    var build, engine := BuildStep(m).job.prefix, EngineStep(m, c, name).job.prefix;
    assert build.dir == ["portfolio_audit", "raw", "build"];
    assert engine.dir == ["portfolio_audit", "raw", "cases", c.id];
    assert [] + CleanLog(build) == CleanLog(build) && [] + CleanLog(engine) == CleanLog(engine);
  }

  function FourUnlinks(dir: seq<string>, name: string): seq<Action<Doc>> {
    [Unlink(Path(dir, name + ".command.json")), Unlink(Path(dir, name + ".stdout")),
     Unlink(Path(dir, name + ".stderr")), Unlink(Path(dir, name + ".result.json"))]
  }

  /** What a step that does not raise does before its checkpoint: it removes the output
      that it is to compile, and captures its command. */
  lemma WorkDone(cfg: Config, done: seq<Step>, t: Target, c: Case, name: string)
    ensures var m, o := cfg.manifest, cfg.outcomes(Captured(done));
            && WorkLog(cfg, done, BuildStep(m)) == CaptureLog(cfg, BuildStep(m).job, o)
            && WorkLog(cfg, done, CompileStep(m, t)) == [Unlink(t.entry)] + CaptureLog(cfg, CompileStep(m, t).job, o)
            && WorkLog(cfg, done, EngineStep(m, c, name)) == CaptureLog(cfg, EngineStep(m, c, name).job, o)
            && WorkLog(cfg, done, OpenCase(c.id, c.targetArgv)) == [] == WorkLog(cfg, done, Finish)
  {
    hide CaptureLog, PrefixArgv;
    var o := cfg.outcomes(Captured(done));
    assert [] + CaptureLog(cfg, BuildStep(cfg.manifest).job, o) == CaptureLog(cfg, BuildStep(cfg.manifest).job, o);
  }

  /** What one capture does to the disk. */
  lemma CaptureDone(cfg: Config, dir: seq<string>, name: string, argv: seq<string>, timeout: Option<real>,
                    context: Context, o: Outcome)
    ensures var job := Job(Path(dir, name), argv, timeout, context);
            CaptureLog(cfg, job, o)
            == FourUnlinks(dir, name)
               + AtomicWrite(Path(dir, name + ".command.json"),
                             CommandDoc(cfg.runId, argv, cfg.shellJoin(argv), cfg.cwd, timeout, context), cfg.pid, EMPTY)
               + AtomicWrite(Path(dir, name + ".stdout"), Raw(o.stdout), cfg.pid, EMPTY)
               + AtomicWrite(Path(dir, name + ".stderr"), Raw(o.stderr), cfg.pid, EMPTY)
               + AtomicWrite(Path(dir, name + ".result.json"), ResultDoc(ResultFor(cfg, job, o)), cfg.pid, EMPTY)
  {
    hide AtomicWrite, ResultFor;
  }

  /** Before its first step a run writes the environment record and the empty index. */
  lemma PrologueDone(cfg: Config)
    ensures INDEX_PATH == Path(["portfolio_audit", "raw"], "run_index.json")
    ensures Prologue(cfg)
         == AtomicWrite(Path(["portfolio_audit", "raw"], "environment.json"), EnvironmentDoc(cfg.runId, cfg.environment),
                        cfg.pid, EMPTY)
            + AtomicWrite(INDEX_PATH, IndexDoc(Index(cfg.runId, Running, Absent, [], [])), cfg.pid, EMPTY)
  {
    hide AtomicWrite;
  }

  lemma BuildBad(m: Manifest)
    ensures BuildStep(m).Bad() <==> !BuildReads(m)
  {
  }

  lemma CompileBad(m: Manifest, t: Target)
    requires Accepted(m) && t in m.targets
    ensures CompileStep(m, t).Bad() <==> m.compileTimeout.Absent? || t.role.Absent?
    ensures CompileStep(m, t).Obstacle() != Some(NulCharacter)
  {
    hide Runnable;
    var i :| 0 <= i < |m.targets| && m.targets[i] == t;
    assert TargetAccepted(m.targets[i]);
    RunnableCompile(t.source.text, t.output.text);
  }

  lemma RunnableCompile(source: string, output: string)
    requires Passable(source) && Passable(output)
    ensures Runnable(["gcc"] + FLAGS + [source, "-o", output])
  {
  }

  lemma EngineBad(m: Manifest, c: Case, name: string)
    ensures EngineStep(m, c, name).Bad()
       <==> !StringList(PrefixArgv(m, name)) || !Runnable(PrefixArgv(m, name)) || !Runnable(c.targetArgv)
  {
    hide Runnable;
    RunnableAppend(PrefixArgv(m, name), c.targetArgv);
  }

  /** The steps of cases are their openings and their engines' runs. */
  lemma {:induction false} InCaseSteps(m: Manifest, cases: seq<Case>, s: Step)
    requires s in CaseSteps(m, cases)
    ensures s.OpenCase? || exists c, name :: c in cases && name in c.engines && s == EngineStep(m, c, name)
  {
    hide EngineStep;
    var front, c := cases[..|cases| - 1], cases[|cases| - 1];
    if s in CaseSteps(m, front) {
      InCaseSteps(m, front, s);
      assert forall x :: x in front ==> x in cases;
    } else if !s.OpenCase? {
      var steps := EngineSteps(m, c, c.engines);
      assert s in steps;
      var k :| 0 <= k < |steps| && steps[k] == s;
      assert c in cases && c.engines[k] in c.engines;
    }
  }

  lemma {:induction false} EngineInCases(m: Manifest, cases: seq<Case>, c: Case, name: string)
    requires c in cases && name in c.engines
    ensures EngineStep(m, c, name) in CaseSteps(m, cases)
  {
    hide EngineStep;
    var front, last := cases[..|cases| - 1], cases[|cases| - 1];
    if c == last {
      var k :| 0 <= k < |c.engines| && c.engines[k] == name;
      assert EngineSteps(m, c, c.engines)[k] == EngineStep(m, c, name);
    } else {
      EngineInCases(m, front, c, name);
    }
  }

  predicate InPlan(m: Manifest, s: Step) {
    s == BuildStep(m) || s in CompileSteps(m, m.targets) || s in CaseSteps(m, m.cases) || s == Finish
  }

  lemma InFullPlan(m: Manifest, s: Step)
    ensures s in FullPlan(m) <==> InPlan(m, s)
  {
    hide BuildStep, CompileSteps, CaseSteps;
  }

  lemma EnginesOfCase(m: Manifest, c: Case)
    requires Accepted(m) && c in m.cases
    ensures c.engines != [] && forall name <- c.engines :: name in ENGINES
  {
    var i :| 0 <= i < |m.cases| && m.cases[i] == c;
    assert CaseAccepted(m.cases[i], m.targets);
    EnginesForIsList(c.id);
  }

  /** The eleventh case, t11_clone_descendant, runs all engines. */
  lemma ClonesRunAll(m: Manifest)
    requires Accepted(m)
    ensures |m.cases| > 10 && m.cases[10].engines == ENGINES
  {
    assert CaseIds(m.cases)[10] == EXPECTED_CASES[10] == "t11_clone_descendant";
    assert CaseAccepted(m.cases[10], m.targets);
  }

  lemma CompilesBad(m: Manifest)
    requires Accepted(m)
    ensures (forall s <- CompileSteps(m, m.targets) :: !s.Bad()) <==> CompilesRead(m)
  {
    hide Accepted, CompileStep;
    AcceptedCounts(m);
    forall t | t in m.targets
      ensures CompileStep(m, t).Bad() <==> m.compileTimeout.Absent? || t.role.Absent?
    {
      CompileBad(m, t);
    }
    var steps := CompileSteps(m, m.targets);
    assert forall i :: 0 <= i < |steps| ==> steps[i] in steps && m.targets[i] in m.targets;
    if CompilesRead(m) {
    } else if m.compileTimeout.Absent? {
      assert steps[0].Bad();
    } else {
      var t :| t in m.targets && t.role.Absent?;
      var i :| 0 <= i < |m.targets| && m.targets[i] == t;
      assert steps[i].Bad();
    }
  }

  lemma CasesBad(m: Manifest)
    requires Accepted(m)
    ensures (forall s <- CaseSteps(m, m.cases) :: !s.Bad()) <==> CasesRead(m)
  {
    hide Accepted, EngineStep, CaseSteps, PrefixArgv, StringList, Runnable;
    var steps := CaseSteps(m, m.cases);
    if CasesRead(m) {
      forall s | s in steps
        ensures !s.Bad()
      {
        InCaseSteps(m, m.cases, s);
        if !s.OpenCase? {
          var c, name :| c in m.cases && name in c.engines && s == EngineStep(m, c, name);
          EnginesOfCase(m, c);
          EngineBad(m, c, name);
        }
      }
    } else {
      var c, name := BadEngine(m);
      EngineBad(m, c, name);
      EngineInCases(m, m.cases, c, name);
    }
  }

  lemma BadEngine(m: Manifest) returns (c: Case, name: string)
    requires Accepted(m) && !CasesRead(m)
    ensures c in m.cases && name in c.engines
    ensures !StringList(PrefixArgv(m, name)) || !Runnable(PrefixArgv(m, name)) || !Runnable(c.targetArgv)
  {
    hide Accepted, PrefixArgv, StringList, Runnable;
    if e :| e in ENGINES && !(StringList(PrefixArgv(m, e)) && Runnable(PrefixArgv(m, e))) {
      ClonesRunAll(m);
      c, name := m.cases[10], e;
    } else {
      c :| c in m.cases && !Runnable(c.targetArgv);
      EnginesOfCase(m, c);
      name := c.engines[0];
    }
  }

  /** When an accepted manifest is carried out whole: if and only if everything that main
      reads of it unchecked is there and can be passed to the system. */
  lemma PlanIsFull(m: Manifest)
    requires Accepted(m)
    ensures Plan(m) == FullPlan(m) <==> ReadsThrough(m)
  {
    hide Accepted, BuildStep, CompileSteps, CaseSteps, BuildReads, CompilesRead, CasesRead, UpToBad, FullPlan;
    NoneBad(FullPlan(m));
    BuildBad(m);
    CompilesBad(m);
    CasesBad(m);
    forall s: Step
      ensures s in FullPlan(m) <==> InPlan(m, s)
    {
      InFullPlan(m, s);
    }
  }

  /** The condition is not idle: accepted manifests that fall short of each of its parts
      and are not carried out whole. */
  lemma AcceptedButStopping()
    ensures forall m <- [OneProgram([], ["x"], Some("case")),
                         OneProgram(["make"], ["x"], Some("case")).(buildTimeout := Absent),
                         OneProgram(["make", "\0"], ["x"], Some("case")),
                         OneProgram(["make"], ["x"], Some("case")).(compileTimeout := Absent),
                         OneProgram(["make"], ["x"], Absent),
                         OneProgram(["make"], [], Some("case")),
                         OneProgram(["make"], ["x", "\0"], Some("case"))] ::
              Accepted(m) && Plan(m) != FullPlan(m)
  {
    hide Accepted, Plan, FullPlan, ReadsThrough, OneProgram;
    forall buildArgv, prefixArgv, role
      ensures Accepted(OneProgram(buildArgv, prefixArgv, role))
    {
      OneProgramAccepted(buildArgv, prefixArgv, role);
    }
    UncheckedKept(OneProgram(["make"], ["x"], Some("case")));
    forall m | Accepted(m) && !ReadsThrough(m)
      ensures Plan(m) != FullPlan(m)
    {
      PlanIsFull(m);
    }
    Shortcomings();
  }

  lemma UncheckedKept(m: Manifest)
    requires Accepted(m)
    ensures Accepted(m.(buildTimeout := Absent)) && Accepted(m.(compileTimeout := Absent))
  {
    hide TargetAccepted, CaseAccepted;
  }

  lemma Shortcomings()
    ensures !ReadsThrough(OneProgram([], ["x"], Some("case")))
    ensures !ReadsThrough(OneProgram(["make"], ["x"], Some("case")).(buildTimeout := Absent))
    ensures !ReadsThrough(OneProgram(["make", "\0"], ["x"], Some("case")))
    ensures !ReadsThrough(OneProgram(["make"], ["x"], Some("case")).(compileTimeout := Absent))
    ensures !ReadsThrough(OneProgram(["make"], ["x"], Absent))
    ensures !ReadsThrough(OneProgram(["make"], [], Some("case")))
    ensures !ReadsThrough(OneProgram(["make"], ["x", "\0"], Some("case")))
  {
    hide OneProgramCase;
    assert !Passable("\0") && "\0" in ["make", "\0"] && "\0" in ["x", "\0"];
    OnePrefix(["make"], [], Some("case"));
    OnePrefix(["make"], ["x", "\0"], Some("case"));
    var m := OneProgram(["make"], ["x"], Absent);
    assert m.targets[0] in m.targets && m.targets[0].role.Absent?;
  }

  lemma OnePrefix(buildArgv: seq<string>, prefixArgv: seq<string>, role: Option<string>)
    ensures ENGINES[0] in ENGINES && PrefixArgv(OneProgram(buildArgv, prefixArgv, role), ENGINES[0]) == prefixArgv
  {
    var m := OneProgram(buildArgv, prefixArgv, role);
    assert m.engines[0].name == ENGINES[0];
    assert forall e <- m.engines :: e.prefixArgv == prefixArgv;
  }
}
