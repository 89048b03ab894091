/** The sequence of indexes a run publishes: always whole, only growing, and marked
    complete only when everything has been recorded. */
module Checkpoints {
  import opened Manifests
  import opened Disk
  import opened Plans
  import opened WriteAhead
  import opened Ordering
  import Text
  import opened Wrappers

  // ---------------------------------------------------------- always one whole index

  /** How many steps have published their index after `k` actions. */
  function Published(cfg: Config, plan: seq<Step>, k: nat): (n: nat)
    ensures n <= |plan|
  {
    if plan == [] || k >= |LogAt(cfg, plan)| then |plan| else Published(cfg, plan[..|plan| - 1], k)
  }

  /** From the first checkpoint on, whenever the crash comes, run_index.json is the
      whole index of the steps published by then: never a part or a mixture. */
  lemma {:induction false} IndexAlwaysWhole(cfg: Config, files: Files<Doc>, plan: seq<Step>, k: nat)
    requires AllInPlace(plan) && |Prologue(cfg)| <= k <= |LogAt(cfg, plan)|
    ensures HasSynced(Replay(files, LogAt(cfg, plan)[..k]), INDEX_PATH,
                      IndexDoc(IndexAt(cfg, plan[..Published(cfg, plan, k)])))
  {
    hide InPlace, Replay, StepLog, Prologue, IndexAt, HasSynced;
    var log := LogAt(cfg, plan);
    if k == |log| {
      assert log[..k] == log && plan[..|plan|] == plan;
      IndexAtEnd(cfg, files, plan);
    } else {
      var front, last := plan[..|plan| - 1], plan[|plan| - 1];
      var before, step := LogAt(cfg, front), StepLog(cfg, front, last);
      if k < |before| {
        assert log[..k] == before[..k];
        IndexAlwaysWhole(cfg, files, front, k);
        assert front[..Published(cfg, front, k)] == plan[..Published(cfg, front, k)];
      } else {
        var m := k - |before|;
        assert log[..k] == before + step[..m];
        ReplayAppend(files, before, step[..m]);
        IndexAtEnd(cfg, files, front);
        IndexUntouched(cfg, front, last, m);
        UntouchedSame(Replay(files, before), step[..m], INDEX_PATH);
        HasSyncedSame(Replay(files, before), Replay(Replay(files, before), step[..m]), IndexDoc(IndexAt(cfg, front)));
        assert Published(cfg, front, k) == |front|;
        assert plan[..|front|] == front;
      }
    }
  }

  lemma HasSyncedSame(a: Files<Doc>, b: Files<Doc>, d: Doc)
    requires SameAt(a, b, INDEX_PATH) && HasSynced(a, INDEX_PATH, d)
    ensures HasSynced(b, INDEX_PATH, d)
  {
  }

  lemma IndexAtEnd(cfg: Config, files: Files<Doc>, plan: seq<Step>)
    ensures HasSynced(Replay(files, LogAt(cfg, plan)), INDEX_PATH, IndexDoc(IndexAt(cfg, plan)))
  {
    hide Replay, WorkLog, Checkpoint, HasSynced;
    if plan == [] {
      PrologueSettles(cfg, files);
    } else {
      var front, last := plan[..|plan| - 1], plan[|plan| - 1];
      var work := WorkLog(cfg, front, last);
      assert front + [last] == plan;
      ReplayAppend(files, LogAt(cfg, front), StepLog(cfg, front, last));
      ReplayAppend(Replay(files, LogAt(cfg, front)), work, Checkpoint(cfg, IndexAt(cfg, plan)));
      CheckpointDone(cfg, Replay(Replay(files, LogAt(cfg, front)), work), IndexAt(cfg, plan));
    }
  }

  /** Only the last action of a step touches the index. */
  lemma IndexUntouched(cfg: Config, done: seq<Step>, step: Step, m: nat)
    requires InPlace(step) && m < |StepLog(cfg, done, step)|
    ensures INDEX_PATH !in Touched(StepLog(cfg, done, step)[..m])
  {
    hide WorkLog, Checkpoint, Touched;
    var log, check := StepLog(cfg, done, step), Checkpoint(cfg, IndexAt(cfg, done + [step]));
    CheckpointFour(cfg, IndexAt(cfg, done + [step]));
    assert log[..|log| - 1] == WorkLog(cfg, done, step) + check[..3];
    assert log[..|log| - 1][..m] == log[..m];
    TouchedPrefix(log[..|log| - 1], m);
    TouchedAppend(WorkLog(cfg, done, step), check[..3]);
    CheckpointClear(cfg, IndexAt(cfg, done + [step]), Path(["", "", ""], ""));
    WorkIndexClear(cfg, done, step);
  }

  // ------------------------------------------------------------------ only growing

  ghost predicate CasesExtend(a: seq<CaseEntry>, b: seq<CaseEntry>) {
    && |a| <= |b|
    && (forall i :: 0 <= i < |a| ==> a[i].id == b[i].id && a[i].targetArgv == b[i].targetArgv && a[i].engines <= b[i].engines)
    && (forall i :: 0 <= i < |a| - 1 ==> a[i] == b[i])
  }

  /** `b` is what `a` may have become: nothing recorded was changed or taken out,
      appends go to the end, only the last case was open, and a complete index is final. */
  ghost predicate Extends(a: Index, b: Index) {
    && a.runId == b.runId && (a.build.Some? ==> b.build == a.build) && (a.state.Complete? ==> a == b)
    && a.compilations <= b.compilations && CasesExtend(a.cases, b.cases)
  }

  lemma ExtendsTransitive(a: Index, b: Index, c: Index)
    requires Extends(a, b) && Extends(b, c)
    ensures Extends(a, c)
  {
    forall i | 0 <= i < |a.cases| - 1
      ensures a.cases[i] == c.cases[i]
    {
      assert a.cases[i] == b.cases[i];
    }
  }

  /** The build comes first and the finish last, as in every plan. */
  ghost predicate Ordered(plan: seq<Step>) {
    && (forall i :: 0 < i < |plan| ==> !plan[i].Build?)
    && (forall i :: 0 <= i < |plan| - 1 ==> !plan[i].Finish?)
  }

  lemma {:induction false} StillRunning(cfg: Config, done: seq<Step>)
    requires forall i :: 0 <= i < |done| ==> !done[i].Finish?
    ensures IndexAt(cfg, done).state == Running
  {
    hide RecordOf;
    if done != [] {
      StillRunning(cfg, done[..|done| - 1]);
    }
  }

  lemma GrowExtends(cfg: Config, index: Index, done: seq<Step>, step: Step)
    requires index.state == Running && (step.Build? ==> index.build.Absent?)
    ensures Extends(index, Grow(cfg, index, done, step))
  {
    hide RecordOf;
  }

  /** Later checkpoints extend earlier ones. */
  lemma {:induction false} CheckpointsGrow(cfg: Config, plan: seq<Step>, n: nat)
    requires Ordered(plan) && n <= |plan|
    ensures Extends(IndexAt(cfg, plan[..n]), IndexAt(cfg, plan))
  {
    hide Grow, Extends;
    if n == |plan| {
      assert plan[..n] == plan;
      ExtendsSelf(IndexAt(cfg, plan));
    } else {
      var front, last := plan[..|plan| - 1], plan[|plan| - 1];
      assert front[..n] == plan[..n];
      CheckpointsGrow(cfg, front, n);
      StillRunning(cfg, front);
      GrowExtends(cfg, IndexAt(cfg, front), front, last);
      ExtendsTransitive(IndexAt(cfg, plan[..n]), IndexAt(cfg, front), IndexAt(cfg, plan));
    }
  }

  lemma ExtendsSelf(a: Index)
    ensures Extends(a, a)
  {
  }

  lemma {:induction false} PublishedGrows(cfg: Config, plan: seq<Step>, k: nat, k': nat)
    requires k <= k'
    ensures Published(cfg, plan, k) <= Published(cfg, plan, k')
  {
    hide LogAt;
    if plan != [] {
      PublishedGrows(cfg, plan[..|plan| - 1], k, k');
    }
  }

  lemma CaseStepsOrdered(m: Manifest)
    ensures forall s <- CaseSteps(m, m.cases) :: !s.Build? && !s.Finish?
  {
    hide CaseSteps;
    forall s | s in CaseSteps(m, m.cases)
      ensures !s.Build? && !s.Finish?
    {
      InCaseSteps(m, m.cases, s);
    }
  }

  lemma PlanOrdered(m: Manifest)
    ensures Ordered(FullPlan(m)) && Ordered(Plan(m))
  {
    hide CaseSteps, UpToBad;
    CaseStepsOrdered(m);
    var compiles, cases, full := CompileSteps(m, m.targets), CaseSteps(m, m.cases), FullPlan(m);
    forall i | 0 < i < |full|
      ensures !full[i].Build? && (i < |full| - 1 ==> !full[i].Finish?)
    {
      if i <= |compiles| {
        assert full[i] == compiles[i - 1];
      } else if i < |full| - 1 {
        assert full[i] == cases[i - 1 - |compiles|];
      }
    }
    assert Plan(m) <= full;
  }

  /** Crash images of one run, in time order: the later index extends the earlier. */
  lemma IndexesGrow(cfg: Config, k: nat, k': nat)
    requires k <= k'
    ensures var plan := Plan(cfg.manifest);
            Extends(IndexAt(cfg, plan[..Published(cfg, plan, k)]), IndexAt(cfg, plan[..Published(cfg, plan, k')]))
  {
    hide Extends, Published, Plan, IndexAt;
    var plan := Plan(cfg.manifest);
    PlanOrdered(cfg.manifest);
    PublishedGrows(cfg, plan, k, k');
    var later := plan[..Published(cfg, plan, k')];
    assert later[..Published(cfg, plan, k)] == plan[..Published(cfg, plan, k)];
    CheckpointsGrow(cfg, later, Published(cfg, plan, k));
  }

  /** For every manifest: at every crash point from the first checkpoint on,
      run_index.json is one whole index of this run. */
  lemma RunIndexWhole(cfg: Config, files: Files<Doc>, k: nat, image: map<Path, Doc>)
    requires OutputsOutside(cfg.manifest) && CrashPoint(cfg, files, k, image) && |Prologue(cfg)| <= k
    ensures INDEX_PATH in image
    ensures image[INDEX_PATH] == IndexDoc(IndexAt(cfg, Plan(cfg.manifest)[..Published(cfg, Plan(cfg.manifest), k)]))
  {
    hide IndexAt, Replay, Plan, AllInPlace, Prologue, LogAt, FullPlan, Rest, Touched, OutputsOutside;
    var plan, log, rest := Plan(cfg.manifest), LogAt(cfg, Plan(cfg.manifest)), Rest(FullPlan(cfg.manifest));
    FullPlanInPlace(cfg.manifest);
    if k <= |log| {
      assert RunLog(cfg)[..k] == log[..k];
      IndexAlwaysWhole(cfg, files, plan, k);
    } else {
      var part := rest[..k - |log|];
      assert RunLog(cfg)[..k] == log + part;
      ReplayAppend(files, log, part);
      RestIndexClear(cfg.manifest);
      TouchedPrefix(rest, k - |log|);
      UntouchedSame(Replay(files, log), part, INDEX_PATH);
      IndexAtEnd(cfg, files, plan);
      HasSyncedSame(Replay(files, log), Replay(Replay(files, log), part), IndexDoc(IndexAt(cfg, plan)));
      assert Published(cfg, plan, k) == |plan| && plan[..|plan|] == plan;
    }
  }

  // ------------------------------------------------------------ complete means all

  /** What a record says: where its four files are, what was run, for how long at most
      and on what occasion. */
  ghost predicate Describes(r: Record, dir: seq<string>, name: string, argv: seq<string>, timeout: Option<real>,
                            context: Context)
  {
    && r.commandPath == Path(dir, name + ".command.json") && r.resultPath == Path(dir, name + ".result.json")
    && r.stdoutPath == Path(dir, name + ".stdout") && r.stderrPath == Path(dir, name + ".stderr")
    && r.result.argv == argv && r.result.timeout == timeout && r.result.context == context
  }

  ghost predicate BuildMatches(m: Manifest, r: Record) {
    Describes(r, ["portfolio_audit", "raw", "build"], "make", m.buildArgv, m.buildTimeout, BuildContext)
  }

  /** The compiler with its flags turns the target's source into its output. */
  ghost predicate CompileMatches(m: Manifest, r: Record, t: Target) {
    Describes(r, ["portfolio_audit", "raw", "compile"], t.output.name,
              [m.compiler] + m.compilerFlags + [t.source.text, "-o", t.output.text], m.compileTimeout, CompileContext(t))
  }

  /** The engine's prefix comes before the case's target. */
  ghost predicate EngineMatches(m: Manifest, r: Record, c: Case, name: string) {
    var prefixArgv := PrefixArgv(m, name);
    Describes(r, ["portfolio_audit", "raw", "cases", c.id], name, prefixArgv + c.targetArgv, Some(m.caseTimeout),
              CaseContext(c.id, name, prefixArgv, c.targetArgv))
  }

  ghost predicate EntryMatches(m: Manifest, e: CaseEntry, c: Case) {
    && e.id == c.id && e.targetArgv == c.targetArgv && |e.engines| == |c.engines|
    && forall k :: 0 <= k < |c.engines| ==>
         e.engines[k].name == c.engines[k] && EngineMatches(m, e.engines[k].record, c, c.engines[k])
  }

  /** The build, every compile target and every case/engine pair have their record, in
      order. */
  ghost predicate RecordsAll(index: Index, m: Manifest) {
    && index.build.Some? && BuildMatches(m, index.build.value)
    && CompilesMatch(m, index.compilations, m.targets)
    && |index.cases| == |m.cases| && forall i :: 0 <= i < |m.cases| ==> EntryMatches(m, index.cases[i], m.cases[i])
  }

  ghost predicate CompilesMatch(m: Manifest, records: seq<Record>, targets: seq<Target>) {
    |records| == |targets| && forall i :: 0 <= i < |targets| ==> CompileMatches(m, records[i], targets[i])
  }

  lemma {:induction false} AfterCompiles(cfg: Config, before: seq<Step>, targets: seq<Target>)
    requires IndexAt(cfg, before).compilations == []
    ensures var index, start := IndexAt(cfg, before + CompileSteps(cfg.manifest, targets)), IndexAt(cfg, before);
            index.build == start.build && index.cases == start.cases && CompilesMatch(cfg.manifest, index.compilations, targets)
  {
    hide IndexAt, Grow, CompileSteps, CompileStep, CompilesMatch;
    if targets == [] {
      NoCompiles(cfg.manifest);
      assert before + CompileSteps(cfg.manifest, targets) == before;
    } else {
      var front, last := targets[..|targets| - 1], targets[|targets| - 1];
      AfterCompiles(cfg, before, front);
      CompileStepsSnoc(cfg.manifest, targets);
      Text.Assoc(before, CompileSteps(cfg.manifest, front), [CompileStep(cfg.manifest, last)]);
      OneMoreCompile(cfg, before + CompileSteps(cfg.manifest, front), targets);
    }
  }

  lemma NoCompiles(m: Manifest)
    ensures CompilesMatch(m, [], [])
  {
  }

  lemma CompileStepsSnoc(m: Manifest, targets: seq<Target>)
    requires targets != []
    ensures CompileSteps(m, targets)
         == CompileSteps(m, targets[..|targets| - 1]) + [CompileStep(m, targets[|targets| - 1])]
  {
    hide CompileStep;
  }

  lemma OneMoreCompile(cfg: Config, done: seq<Step>, targets: seq<Target>)
    requires targets != [] && CompilesMatch(cfg.manifest, IndexAt(cfg, done).compilations, targets[..|targets| - 1])
    ensures var index := IndexAt(cfg, done + [CompileStep(cfg.manifest, targets[|targets| - 1])]);
            var start := IndexAt(cfg, done);
            index.build == start.build && index.cases == start.cases && CompilesMatch(cfg.manifest, index.compilations, targets)
  {
    hide IndexAt, Grow, CompileStep, CompilesMatch;
    var front, last := targets[..|targets| - 1], targets[|targets| - 1];
    Snoc(cfg, done, CompileStep(cfg.manifest, last));
    CompileGrows(cfg, IndexAt(cfg, done), done, front, last);
    assert targets == front + [last];
  }

  lemma CompileGrows(cfg: Config, start: Index, done: seq<Step>, targets: seq<Target>, t: Target)
    requires CompilesMatch(cfg.manifest, start.compilations, targets)
    ensures var index := Grow(cfg, start, done, CompileStep(cfg.manifest, t));
            && index.build == start.build && index.cases == start.cases
            && CompilesMatch(cfg.manifest, index.compilations, targets + [t])
  {
    hide CompileMatches, RecordFor;
    CompileRecorded(cfg, t, cfg.outcomes(Captured(done)));
  }

  lemma CompileRecorded(cfg: Config, t: Target, o: Outcome)
    ensures CompileMatches(cfg.manifest, RecordFor(cfg, CompileStep(cfg.manifest, t).job, o), t)
  {
  }

  lemma EngineRecorded(cfg: Config, c: Case, name: string, o: Outcome)
    ensures EngineMatches(cfg.manifest, RecordFor(cfg, EngineStep(cfg.manifest, c, name).job, o), c, name)
  {
    hide PrefixArgv;
  }

  lemma OpenGrows(cfg: Config, start: Index, before: seq<Step>, c: Case)
    ensures var index := Grow(cfg, start, before, OpenCase(c.id, c.targetArgv));
            && index.build == start.build && index.compilations == start.compilations
            && index.cases == start.cases + [CaseEntry(c.id, c.targetArgv, [])]
  {
  }

  lemma EngineGrows(cfg: Config, start: Index, done: seq<Step>, c: Case, cases: seq<CaseEntry>, e: CaseEntry, n: nat)
    requires n < |c.engines| && start.cases == cases + [e]
    requires EntryMatches(cfg.manifest, e, c.(engines := c.engines[..n]))
    ensures var index := Grow(cfg, start, done, EngineStep(cfg.manifest, c, c.engines[n]));
            && index.build == start.build && index.compilations == start.compilations
            && |index.cases| == |cases| + 1 && index.cases[..|cases|] == cases
            && EntryMatches(cfg.manifest, index.cases[|cases|], c.(engines := c.engines[..n + 1]))
  {
    hide EngineMatches, RecordFor, PrefixArgv;
    EngineRecorded(cfg, c, c.engines[n], cfg.outcomes(Captured(done)));
    var now, was := c.(engines := c.engines[..n + 1]), c.(engines := c.engines[..n]);
    forall r, name | EngineMatches(cfg.manifest, r, was, name) || EngineMatches(cfg.manifest, r, c, name)
      ensures EngineMatches(cfg.manifest, r, now, name)
    {
      SameCase(cfg.manifest, r, was, now, name);
      SameCase(cfg.manifest, r, c, now, name);
    }
  }

  lemma SameCase(m: Manifest, r: Record, a: Case, b: Case, name: string)
    requires a.id == b.id && a.targetArgv == b.targetArgv
    ensures EngineMatches(m, r, a, name) <==> EngineMatches(m, r, b, name)
  {
  }

  lemma {:induction false} AfterEngines(cfg: Config, before: seq<Step>, c: Case, n: nat)
    requires n <= |c.engines|
    ensures var index := IndexAt(cfg, before + ([OpenCase(c.id, c.targetArgv)] + EngineSteps(cfg.manifest, c, c.engines[..n])));
            var start := IndexAt(cfg, before);
            && index.build == start.build && index.compilations == start.compilations
            && |index.cases| == |start.cases| + 1 && index.cases[..|start.cases|] == start.cases
            && EntryMatches(cfg.manifest, index.cases[|start.cases|], c.(engines := c.engines[..n]))
  {
    hide IndexAt, Grow, EngineStep, EngineSteps;
    var open := OpenCase(c.id, c.targetArgv);
    var m, start := cfg.manifest, IndexAt(cfg, before);
    if n == 0 {
      assert [open] + EngineSteps(m, c, c.engines[..0]) == [open];
      Snoc(cfg, before, open);
      OpenGrows(cfg, start, before, c);
    } else {
      hide EntryMatches;
      AfterEngines(cfg, before, c, n - 1);
      assert EngineSteps(m, c, c.engines[..n]) == EngineSteps(m, c, c.engines[..n - 1]) + [EngineStep(m, c, c.engines[n - 1])];
      var step := EngineStep(m, c, c.engines[n - 1]);
      var done := before + ([open] + EngineSteps(m, c, c.engines[..n - 1]));
      Text.Assoc(before, [open] + EngineSteps(m, c, c.engines[..n - 1]), [step]);
      Text.Assoc([open], EngineSteps(m, c, c.engines[..n - 1]), [step]);
      Snoc(cfg, done, step);
      var mid := IndexAt(cfg, done);
      assert mid.cases == start.cases + [mid.cases[|start.cases|]];
      EngineGrows(cfg, mid, done, c, start.cases, mid.cases[|start.cases|], n - 1);
    }
  }

  lemma {:induction false} AfterCases(cfg: Config, before: seq<Step>, cases: seq<Case>, n: nat)
    requires IndexAt(cfg, before).cases == [] && n <= |cases|
    ensures var index, start := IndexAt(cfg, before + CaseSteps(cfg.manifest, cases[..n])), IndexAt(cfg, before);
            && index.build == start.build && index.compilations == start.compilations && |index.cases| == n
            && forall i :: 0 <= i < n ==> EntryMatches(cfg.manifest, index.cases[i], cases[i])
  {
    hide IndexAt, EntryMatches, EngineSteps;
    var m := cfg.manifest;
    if n == 0 {
      assert before + CaseSteps(m, cases[..0]) == before;
    } else {
      var c := cases[n - 1];
      var done := before + CaseSteps(m, cases[..n - 1]);
      AfterCases(cfg, before, cases, n - 1);
      assert cases[..n][..n - 1] == cases[..n - 1] && cases[..n][n - 1] == c;
      Text.Assoc(before, CaseSteps(m, cases[..n - 1]), CaseBlock(m, c));
      AfterEngines(cfg, done, c, |c.engines|);
      assert c.engines[..|c.engines|] == c.engines;
      var now := IndexAt(cfg, done + CaseBlock(m, c)).cases;
      assert forall i :: 0 <= i < n - 1 ==> now[i] == now[..n - 1][i];
    }
  }

  lemma AfterBuild(cfg: Config)
    ensures var index := IndexAt(cfg, [BuildStep(cfg.manifest)]);
            && index.build.Some? && BuildMatches(cfg.manifest, index.build.value)
            && index.compilations == [] && index.cases == []
  {
    hide ResultFor;
    Snoc(cfg, [], BuildStep(cfg.manifest));
    InitialIndex(cfg);
    assert [] + [BuildStep(cfg.manifest)] == [BuildStep(cfg.manifest)];
  }

  lemma AfterFinish(cfg: Config, done: seq<Step>)
    ensures IndexAt(cfg, done + [Finish]) == IndexAt(cfg, done).(state := Complete)
  {
    Snoc(cfg, done, Finish);
  }

  /** The index of the whole plan. */
  lemma FullPlanRecordsAll(cfg: Config)
    ensures RecordsAll(IndexAt(cfg, FullPlan(cfg.manifest)), cfg.manifest)
    ensures IndexAt(cfg, FullPlan(cfg.manifest)).state == Complete
  {
    hide IndexAt, EntryMatches, CaseSteps, CompileSteps, BuildStep;
    var m := cfg.manifest;
    var build := [BuildStep(m)];
    AfterBuild(cfg);
    AfterCompiles(cfg, build, m.targets);
    var compiled := build + CompileSteps(m, m.targets);
    AfterCases(cfg, compiled, m.cases, |m.cases|);
    assert m.cases[..|m.cases|] == m.cases;
    var done := compiled + CaseSteps(m, m.cases);
    AfterFinish(cfg, done);
    assert FullPlan(m) == done + [Finish];
  }

  lemma InitialIndex(cfg: Config)
    ensures IndexAt(cfg, []) == Initial(cfg)
  {
  }

  /** The number of engine records in an index. */
  function EngineRecords(cases: seq<CaseEntry>): nat {
    if cases == [] then 0 else |cases[0].engines| + EngineRecords(cases[1..])
  }

  lemma {:induction false} MatchingCounts(m: Manifest, entries: seq<CaseEntry>, cases: seq<Case>)
    requires |entries| == |cases| && forall i :: 0 <= i < |cases| ==> EntryMatches(m, entries[i], cases[i])
    ensures EngineRecords(entries) == PairCount(cases)
  {
    if cases != [] {
      assert EntryMatches(m, entries[0], cases[0]);
      forall i | 0 <= i < |cases[1..]|
        ensures EntryMatches(m, entries[1..][i], cases[1..][i])
      {
        assert EntryMatches(m, entries[i + 1], cases[i + 1]);
      }
      MatchingCounts(m, entries[1..], cases[1..]);
    }
  }

  /** State "complete" is published only by a run that carried out its whole plan;
      such an index records every compile target and every case/engine pair, which
      makes exactly 15 compilations and 29 engine results. */
  lemma CompleteMeansAll(cfg: Config, n: nat)
    requires Accepted(cfg.manifest) && n <= |Plan(cfg.manifest)|
    requires IndexAt(cfg, Plan(cfg.manifest)[..n]).state == Complete
    ensures Plan(cfg.manifest)[..n] == FullPlan(cfg.manifest)
    ensures RecordsAll(IndexAt(cfg, Plan(cfg.manifest)[..n]), cfg.manifest)
    ensures var index := IndexAt(cfg, Plan(cfg.manifest)[..n]);
            |index.compilations| == 15 && EngineRecords(index.cases) == 29
  {
    hide IndexAt, EntryMatches, Accepted, FullPlan;
    var m := cfg.manifest;
    var plan := Plan(m);
    PlanOrdered(m);
    if n < |FullPlan(m)| {
      StillRunning(cfg, plan[..n]);
      assert false;
    }
    assert plan[..n] == FullPlan(m);
    FullPlanRecordsAll(cfg);
    AcceptedCounts(m);
    MatchingCounts(m, IndexAt(cfg, plan[..n]).cases, m.cases);
  }

  /** The same of what is found on the disk: wherever a run over an accepted manifest is
      cut short, an index of this run that says "complete" records everything, and if
      the output names differ, all four files of each record are there, whole. */
  lemma CompleteOnDisk(cfg: Config, files: Files<Doc>, k: nat, image: map<Path, Doc>)
    requires Accepted(cfg.manifest) && OutputsOutside(cfg.manifest) && NotOurs(cfg, files)
    requires CrashPoint(cfg, files, k, image) && OurIndex(cfg, image) && image[INDEX_PATH].index.state == Complete
    ensures var index := image[INDEX_PATH].index;
            && RecordsAll(index, cfg.manifest) && |index.compilations| == 15 && EngineRecords(index.cases) == 29
            && (DistinctOutputs(cfg.manifest.targets[..Compiled(cfg.manifest)]) ==>
                  forall r :: Names(index, r) ==> WrittenByRun(cfg, Plan(cfg.manifest), image, r))
  {
    hide IndexAt, Published, Replay, Plan, Prologue, Accepted, NotOurs, CrashImage, RecordsAll, WrittenByRun, DistinctOutputs;
    hide FullPlan, Rest, OutputsOutside, RunLog, Compiled;
    if k < |Prologue(cfg)| {
      NothingYet(cfg, files, k, image);
    } else {
      RunIndexWhole(cfg, files, k, image);
      CompleteMeansAll(cfg, Published(cfg, Plan(cfg.manifest), k));
      if DistinctOutputs(cfg.manifest.targets[..Compiled(cfg.manifest)]) {
        PlanSafe(cfg, files, k, image);
      }
    }
  }

  /** Of an accepted manifest: each compilation ran gcc on its source with five flags, and
      each engine run its engine's own prefix on the case's target for five seconds. */
  lemma CommandsOfAll(m: Manifest, index: Index)
    requires Accepted(m) && RecordsAll(index, m)
    ensures forall i :: 0 <= i < |m.targets| ==>
              index.compilations[i].result.argv
              == ["gcc", "-Wall", "-Wextra", "-Werror", "-O0", "-g", m.targets[i].source.text, "-o", m.targets[i].output.text]
    ensures forall i, k, e :: 0 <= i < |m.cases| && 0 <= k < |m.cases[i].engines| && e in m.engines
                              && e.name == m.cases[i].engines[k] ==>
              var result := index.cases[i].engines[k].record.result;
              result.argv == e.prefixArgv + m.cases[i].targetArgv && result.timeout == Some(5.0)
  {
    hide Accepted, EntryMatches, PrefixArgv;
    AcceptedHead(m);
    assert ["gcc"] + FLAGS == ["gcc", "-Wall", "-Wextra", "-Werror", "-O0", "-g"];
    forall i, k, e | 0 <= i < |m.cases| && 0 <= k < |m.cases[i].engines| && e in m.engines
                     && e.name == m.cases[i].engines[k]
      ensures k < |index.cases[i].engines|
      ensures var result := index.cases[i].engines[k].record.result;
              result.argv == e.prefixArgv + m.cases[i].targetArgv && result.timeout == Some(5.0)
    {
      assert EntryMatches(m, index.cases[i], m.cases[i]);
      EngineOfEntry(m, index.cases[i], m.cases[i], k);
      PrefixOfEngine(m, e);
    }
  }

  lemma AcceptedHead(m: Manifest)
    requires Accepted(m)
    ensures m.compiler == "gcc" && m.compilerFlags == FLAGS && m.caseTimeout == 5.0
  {
  }

  lemma EngineOfEntry(m: Manifest, e: CaseEntry, c: Case, k: nat)
    requires EntryMatches(m, e, c) && k < |c.engines|
    ensures k < |e.engines| && e.engines[k].record.result.argv == PrefixArgv(m, c.engines[k]) + c.targetArgv
    ensures e.engines[k].record.result.timeout == Some(m.caseTimeout)
  {
    hide PrefixArgv;
    assert EngineMatches(m, e.engines[k].record, c, c.engines[k]);
  }

  lemma PrefixOfEngine(m: Manifest, e: Engine)
    requires Accepted(m) && e in m.engines
    ensures PrefixArgv(m, e.name) == e.prefixArgv
  {
    var i :| 0 <= i < |m.engines| && m.engines[i] == e;
    var found := FindEngine(m.engines, e.name);
    assert found.Some? && found.value in m.engines;
    var k :| 0 <= k < |m.engines| && m.engines[k] == found.value;
    assert EngineNames(m.engines)[k] == EngineNames(m.engines)[i];
    assert ENGINES[0] != ENGINES[1] && ENGINES[0] != ENGINES[2] && ENGINES[1] != ENGINES[2];
  }

  lemma PrologueFirst(cfg: Config, k: nat)
    requires k <= |Prologue(cfg)|
    ensures |Prologue(cfg)| <= |RunLog(cfg)| && RunLog(cfg)[..k] == Prologue(cfg)[..k]
  {
    hide Prologue, StepLog, Plan, Rest, FullPlan;
    var plan := Plan(cfg.manifest);
    LogPrefix(cfg, plan, 0);
    assert plan[..0] == [] && LogAt(cfg, []) == Prologue(cfg);
  }

  /** Before the first checkpoint is over no index of this run can be found. */
  lemma NothingYet(cfg: Config, files: Files<Doc>, k: nat, image: map<Path, Doc>)
    requires NotOurs(cfg, files) && k < |Prologue(cfg)| && CrashPoint(cfg, files, k, image)
    ensures !OurIndex(cfg, image)
  {
    hide Prologue, RunLog, Replay, CrashImage, NotOurs, OurIndex;
    PrologueFirst(cfg, k);
    PrologueNotOurs(cfg, files, k, image);
  }
}
