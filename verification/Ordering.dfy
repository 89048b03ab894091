/** Write-ahead ordering of run_baseline.py: which runs never leave an index behind that
    names what is not there. */
module Ordering {
  import opened Manifests
  import opened Disk
  import opened Plans
  import opened WriteAhead
  import opened Wrappers

  // ------------------------------------------------ which plans are distinct

  /** validate_manifest does not ask for this. */
  ghost predicate DistinctOutputs(targets: seq<Target>) {
    forall i, j :: 0 <= i < j < |targets| ==> targets[i].output.name != targets[j].output.name
  }

  /** The captures of `a` and those of `b` have no prefix in common. */
  ghost predicate Apart(a: seq<Step>, b: seq<Step>) {
    forall i, j :: 0 <= i < |a| && 0 <= j < |b| && a[i].Captures() && b[j].Captures() ==> a[i].job.prefix != b[j].job.prefix
  }

  lemma DistinctAppend(a: seq<Step>, b: seq<Step>)
    requires DistinctPrefixes(a) && DistinctPrefixes(b) && Apart(a, b)
    ensures DistinctPrefixes(a + b)
  {
  }

  /** Captures of cases lie below raw/cases, in a directory named after the case. */
  ghost predicate CaseDirs(steps: seq<Step>, ids: seq<string>) {
    forall i :: 0 <= i < |steps| ==>
      !steps[i].Build? && !steps[i].Compile?
      && (steps[i].Captures() ==> exists id :: id in ids && steps[i].job.prefix.dir == RAW + ["cases", id])
  }

  lemma CaseBlockDistinct(m: Manifest, c: Case)
    requires forall i, j :: 0 <= i < j < |c.engines| ==> c.engines[i] != c.engines[j]
    ensures DistinctPrefixes(CaseBlock(m, c)) && CaseDirs(CaseBlock(m, c), [c.id])
  {
    var steps := EngineSteps(m, c, c.engines);
    assert c.id in [c.id];
    forall i | 0 <= i < |steps|
      ensures steps[i].job.prefix.dir == RAW + ["cases", c.id]
    {
    }
  }

  lemma {:induction false} CaseStepsDistinct(m: Manifest, cases: seq<Case>)
    requires forall i, j :: 0 <= i < j < |cases| ==> cases[i].id != cases[j].id
    requires forall c: nat, i, j :: c < |cases| && 0 <= i < j < |cases[c].engines| ==> cases[c].engines[i] != cases[c].engines[j]
    ensures DistinctPrefixes(CaseSteps(m, cases)) && CaseDirs(CaseSteps(m, cases), CaseIds(cases))
  {
    hide CaseBlock;
    if cases != [] {
      var front, c := cases[..|cases| - 1], cases[|cases| - 1];
      CaseStepsDistinct(m, front);
      CaseBlockDistinct(m, c);
      var a, b := CaseSteps(m, front), CaseBlock(m, c);
      assert c.id !in CaseIds(front);
      CasesApart(b, a, c.id, CaseIds(front));
      DistinctAppend(a, b);
      assert CaseIds(cases) == CaseIds(front) + [c.id];
      CaseDirsAppend(a, b, CaseIds(front), [c.id]);
    }
  }

  lemma CasesApart(a: seq<Step>, b: seq<Step>, id: string, ids: seq<string>)
    requires CaseDirs(a, [id]) && CaseDirs(b, ids) && id !in ids
    ensures Apart(a, b) && Apart(b, a)
  {
    forall i, j | 0 <= i < |a| && 0 <= j < |b| && a[i].Captures() && b[j].Captures()
      ensures a[i].job.prefix != b[j].job.prefix
    {
      var other :| other in ids && b[j].job.prefix.dir == RAW + ["cases", other];
      assert a[i].job.prefix.dir == RAW + ["cases", id];
      assert (RAW + ["cases", id])[3] == id && (RAW + ["cases", other])[3] == other;
    }
  }

  lemma CaseDirsAppend(a: seq<Step>, b: seq<Step>, ids: seq<string>, more: seq<string>)
    requires CaseDirs(a, ids) && CaseDirs(b, more)
    ensures CaseDirs(a + b, ids + more)
  {
    var all, both := a + b, ids + more;
    assert (forall x :: x in ids ==> x in both) && (forall x :: x in more ==> x in both);
    forall i | 0 <= i < |all|
      ensures !all[i].Build? && !all[i].Compile?
      ensures all[i].Captures() ==> exists x :: x in both && all[i].job.prefix.dir == RAW + ["cases", x]
    {
      if i >= |a| {
        assert all[i] == b[i - |a|];
      } else {
        assert all[i] == a[i];
      }
    }
  }

  lemma ExpectedDistinct()
    ensures forall i, j :: 0 <= i < j < |EXPECTED_CASES| ==> EXPECTED_CASES[i] != EXPECTED_CASES[j]
    ensures forall id, i, j :: 0 <= i < j < |EnginesFor(id)| ==> EnginesFor(id)[i] != EnginesFor(id)[j]
  {
  }

  /** The part of an accepted plan that precedes the cases. */
  function UpToCases(m: Manifest, targets: seq<Target>): seq<Step> {
    [BuildStep(m)] + CompileSteps(m, targets)
  }

  lemma UpToCasesDistinct(m: Manifest, targets: seq<Target>)
    requires DistinctOutputs(targets)
    ensures DistinctPrefixes(UpToCases(m, targets))
  {
    var steps := CompileSteps(m, targets);
    assert BuildStep(m).job.prefix.dir[2] == "build";
    forall i | 0 <= i < |steps|
      ensures steps[i].job.prefix == Path(RAW + ["compile"], targets[i].output.name)
    {
    }
    assert (RAW + ["compile"])[2] == "compile";
  }

  lemma CasesDistinct(m: Manifest)
    requires Accepted(m)
    ensures DistinctPrefixes(CaseSteps(m, m.cases)) && CaseDirs(CaseSteps(m, m.cases), CaseIds(m.cases))
  {
    hide CaseSteps, DistinctPrefixes, CaseDirs;
    ExpectedDistinct();
    forall i | 0 <= i < |m.cases|
      ensures m.cases[i].engines == EnginesFor(m.cases[i].id) && m.cases[i].id == EXPECTED_CASES[i]
    {
      assert CaseAccepted(m.cases[i], m.targets) && m.cases[i].id == CaseIds(m.cases)[i];
    }
    CaseStepsDistinct(m, m.cases);
  }

  /** How many compile targets a run gets to capture: those before the first without a
      role, if the build can be run and the compiler has a timeout. */
  function Compiled(m: Manifest): (n: nat)
    ensures n <= |m.targets|
  {
    if BuildReads(m) && m.compileTimeout.Some? then WithRole(m.targets) else 0
  }

  function WithRole(targets: seq<Target>): (n: nat)
    ensures n <= |targets| && forall i :: 0 <= i < n ==> targets[i].role.Some?
    ensures n < |targets| ==> targets[n].role.Absent?
  {
    if targets == [] || targets[0].role.Absent? then 0 else 1 + WithRole(targets[1..])
  }

  lemma FullPlanAt(m: Manifest, i: nat)
    requires i <= |m.targets|
    ensures |FullPlan(m)| > i
    ensures FullPlan(m)[i] == if i == 0 then BuildStep(m) else CompileStep(m, m.targets[i - 1])
    ensures FullPlan(m)[..i + 1] == UpToCases(m, m.targets[..i])
  {
    hide BuildStep, CompileStep, CaseSteps;
  }

  /** A run that does not compile everything ends in the compile stage or before. */
  lemma PlanWithin(m: Manifest)
    requires Accepted(m) && Compiled(m) < |m.targets|
    ensures |Plan(m)| <= 1 + Compiled(m) && Plan(m) <= UpToCases(m, m.targets[..Compiled(m)])
  {
    hide Accepted, BuildReads, FullPlan, CompileStep, BuildStep, UpToBad, UpToCases;
    var n, full := Compiled(m), FullPlan(m);
    FullPlanAt(m, 0);
    FullPlanAt(m, n);
    FullPlanAt(m, n + 1);
    BuildBad(m);
    CompileBad(m, m.targets[n]);
    assert full[0].Bad() || full[n + 1].Bad();
    assert |Plan(m)| <= n + 1;
    assert Plan(m) <= full[..n + 1];
  }

  lemma FullPlanDistinct(m: Manifest)
    requires Accepted(m) && DistinctOutputs(m.targets)
    ensures DistinctPrefixes(FullPlan(m))
  {
    hide Accepted, BuildStep, CompileSteps, CaseSteps, DistinctOutputs;
    UpToCasesDistinct(m, m.targets);
    CasesDistinct(m);
    var a, b := UpToCases(m, m.targets), CaseSteps(m, m.cases);
    assert FullPlan(m) == a + (b + [Finish]);
    UpToCasesDirs(m, m.targets);
    DistinctAppend(b, [Finish]);
    DistinctAppend(a, b + [Finish]);
  }

  lemma PlanDistinct(m: Manifest)
    requires Accepted(m) && DistinctOutputs(m.targets[..Compiled(m)])
    ensures DistinctPrefixes(Plan(m))
  {
    hide Accepted, DistinctOutputs, FullPlan, UpToCases, UpToBad;
    if Compiled(m) < |m.targets| {
      PlanWithin(m);
      UpToCasesDistinct(m, m.targets[..Compiled(m)]);
    } else {
      assert m.targets[..Compiled(m)] == m.targets;
      FullPlanDistinct(m);
      assert Plan(m) <= FullPlan(m);
    }
  }

  lemma UpToCasesDirs(m: Manifest, targets: seq<Target>)
    ensures forall i :: 0 <= i < |UpToCases(m, targets)| ==>
              UpToCases(m, targets)[i].Captures() && |UpToCases(m, targets)[i].job.prefix.dir| == 3
  {
  }

  /** No output is a link in raw/ or below: unlinking it removes nothing there. */
  ghost predicate OutputsOutside(m: Manifest) {
    forall t <- m.targets :: OutsideRaw(t.entry)
  }

  lemma FullPlanInPlace(m: Manifest)
    requires OutputsOutside(m)
    ensures AllInPlace(FullPlan(m)) && AllInPlace(Plan(m))
  {
    hide CaseSteps, FullPlan;
    forall s | s in FullPlan(m)
      ensures InPlace(s)
    {
      InFullPlan(m, s);
      if s in CompileSteps(m, m.targets) {
        var i :| 0 <= i < |m.targets| && CompileSteps(m, m.targets)[i] == s;
        assert m.targets[i] in m.targets;
      } else if s in CaseSteps(m, m.cases) {
        InCaseSteps(m, m.cases, s);
      }
    }
    var full := FullPlan(m);
    assert forall i :: 0 <= i < |full| ==> full[i] in full;
    assert Plan(m) <= full;
  }

  // ------------------------------------------------------------ what a halt leaves

  lemma RemnantTouches(step: Step, p: Path)
    requires InPlace(step) && p in Touched(step.Remnant())
    ensures OutsideRaw(p) || (step.Captures() && step.Obstacle() == Some(NulCharacter) && p in PathsOf(step.job.prefix))
  {
    hide PathsOf, CleanLog, Touched, StringList, Runnable;
    if step.Captures() && step.Obstacle() == Some(NulCharacter) {
      CleanTouches(step.job.prefix);
      if step.Compile? {
        UnlinkTouches(step.output);
        TouchedAppend([Action<Doc>.Unlink(step.output)], CleanLog(step.job.prefix));
      } else {
        assert [] + CleanLog(step.job.prefix) == CleanLog(step.job.prefix);
      }
    } else if step.Compile? {
      UnlinkTouches(step.output);
      NothingTouched();
    } else {
      NothingTouched();
    }
  }

  lemma UnlinkTouches(p: Path)
    ensures Touched([Action<Doc>.Unlink(p)]) == {p}
  {
  }

  lemma NothingTouched()
    ensures Touched<Doc>([]) == {}
  {
  }

  /** What a halt leaves keeps clear of the index. */
  lemma RestIndexClear(m: Manifest)
    requires OutputsOutside(m)
    ensures INDEX_PATH !in Touched(Rest(FullPlan(m)))
  {
    hide FullPlan, Touched, Step.Remnant, UpToBad;
    FullPlanInPlace(m);
    NothingTouched();
    var full, ran := FullPlan(m), Plan(m);
    if |ran| < |full| && INDEX_PATH in Touched(full[|ran|].Remnant()) {
      assert InPlace(full[|ran|]);
      RemnantTouches(full[|ran|], INDEX_PATH);
      assert false;
    }
  }

  /** And, when the captures are distinct, of each of them. */
  lemma RestClear(m: Manifest, prefix: Path, i: nat)
    requires Accepted(m) && OutputsOutside(m) && DistinctOutputs(m.targets[..Compiled(m)])
    requires i < |Plan(m)| && Plan(m)[i].Captures() && Plan(m)[i].job.prefix == prefix
    ensures Clear(Rest(FullPlan(m)), prefix)
  {
    hide FullPlan, Touched, Step.Remnant, UpToBad, Accepted, DistinctOutputs, Step.Obstacle, PathsOf;
    FullPlanInPlace(m);
    NothingTouched();
    var full, ran := FullPlan(m), Plan(m);
    assert ran[i] == full[i] && InPlace(full[i]);
    CapturesBelow(prefix);
    if |ran| < |full| {
      var step := full[|ran|];
      assert InPlace(step);
      forall p | p in Touched(step.Remnant()) && p in PathsOf(prefix)
        ensures false
      {
        RemnantTouches(step, p);
        HaltApart(m, i);
        DisjointCaptures(step.job.prefix, prefix);
      }
    }
  }

  lemma CapturesBelow(prefix: Path)
    requires BelowRaw(prefix)
    ensures forall p <- PathsOf(prefix) :: !OutsideRaw(p)
  {
  }

  /** If the run halts at a command that cannot be passed on, its capture has a prefix of
      its own. */
  lemma HaltApart(m: Manifest, i: nat)
    requires Accepted(m) && DistinctOutputs(m.targets[..Compiled(m)])
    requires i < |Plan(m)| < |FullPlan(m)| && Plan(m)[i].Captures()
    requires FullPlan(m)[|Plan(m)|].Captures() && FullPlan(m)[|Plan(m)|].Obstacle() == Some(NulCharacter)
    ensures FullPlan(m)[|Plan(m)|].job.prefix != Plan(m)[i].job.prefix
  {
    hide Accepted, DistinctOutputs, FullPlan, UpToBad, CompileStep, BuildStep, UpToCases;
    var n := |Plan(m)|;
    if Compiled(m) < |m.targets| {
      PlanWithin(m);
      FullPlanAt(m, n);
      CompileBad(m, m.targets[n - 1]);
      assert false;
    } else {
      assert m.targets[..Compiled(m)] == m.targets;
      FullPlanDistinct(m);
    }
  }

  // ------------------------------------------------------------- the main result

  /** `image` can be found on the disk if the run over `files` is cut short after
      `k` actions. */
  ghost predicate CrashPoint(cfg: Config, files: Files<Doc>, k: nat, image: map<Path, Doc>) {
    k <= |RunLog(cfg)| && CrashImage(Replay(files, RunLog(cfg)[..k]), image)
  }

  lemma {:induction false} FirstDuplicate(targets: seq<Target>) returns (i: nat, j: nat)
    requires !DistinctOutputs(targets)
    ensures i < j < |targets| && targets[i].output.name == targets[j].output.name
    ensures DistinctOutputs(targets[..j])
  {
    var front := targets[..|targets| - 1];
    if DistinctOutputs(front) {
      i, j :| 0 <= i < j < |targets| && targets[i].output.name == targets[j].output.name;
      assert forall a :: 0 <= a < |front| ==> front[a] == targets[a];
    } else {
      i, j := FirstDuplicate(front);
      assert front[..j] == targets[..j];
    }
  }

  lemma {:induction false} LogPrefix(cfg: Config, steps: seq<Step>, n: nat)
    requires n <= |steps|
    ensures LogAt(cfg, steps[..n]) <= LogAt(cfg, steps)
  {
    hide StepLog, Prologue;
    if n < |steps| {
      var front := steps[..|steps| - 1];
      LogPrefix(cfg, front, n);
      assert front[..n] == steps[..n];
    } else {
      assert steps[..n] == steps;
    }
  }

  lemma {:induction false} CompilationKept(cfg: Config, done: seq<Step>, n: nat)
    requires n < |done| && done[n].Compile?
    ensures RecordOf(cfg, done[..n], done[n]) in IndexAt(cfg, done).compilations
    ensures IndexAt(cfg, done).runId == cfg.runId
  {
    hide RecordOf;
    var front := done[..|done| - 1];
    RunIdKept(cfg, done);
    if n < |front| {
      CompilationKept(cfg, front, n);
      assert front[..n] == done[..n];
    } else {
      assert done[..n] == front;
    }
  }

  lemma {:induction false} RunIdKept(cfg: Config, done: seq<Step>)
    ensures IndexAt(cfg, done).runId == cfg.runId
  {
    if done != [] {
      RunIdKept(cfg, done[..|done| - 1]);
    }
  }

  /** The plan gets to the compilation of each of these targets. */
  lemma PlanReaches(m: Manifest, j: nat)
    requires Accepted(m) && j < Compiled(m)
    ensures UpToCases(m, m.targets[..j]) + [CompileStep(m, m.targets[j])] <= Plan(m)
  {
    hide Accepted, BuildReads, FullPlan, CompileStep, BuildStep, UpToBad;
    var full, ran := FullPlan(m), Plan(m);
    forall i | 0 <= i <= j + 1
      ensures i < |full| && !full[i].Bad()
    {
      FullPlanAt(m, i);
      BuildBad(m);
      if i > 0 {
        CompileBad(m, m.targets[i - 1]);
      }
    }
    FullPlanAt(m, j + 1);
    assert |ran| < |full| ==> full[|ran|].Bad();
    assert |ran| >= j + 2;
    assert UpToCases(m, m.targets[..j]) + [CompileStep(m, m.targets[j])] == UpToCases(m, m.targets[..j + 1]);
  }

  /** Once a compile step starts over an earlier capture of the same name, its
      command file is gone while the index still names it. */
  lemma OverwrittenUnsafe(cfg: Config, files: Files<Doc>, plan: seq<Step>, done: seq<Step>, step: Step, n: nat)
    requires Settled(cfg, files, done) && InPlace(step) && step.Compile?
    requires n < |done| && done[n].Compile? && done[n].job.prefix == step.job.prefix
    ensures |StepLog(cfg, done, step)| >= 2
    ensures exists image :: CrashImage(Replay(files, StepLog(cfg, done, step)[..2]), image) && !Safe(cfg, plan, image)
  {
    hide IndexAt, CapturePath, Stored;
    var log := StepLog(cfg, done, step);
    var command := CapturePath(step.job.prefix, COMMAND);
    assert log[0] == Unlink(step.output) && log[1] == Unlink(command);
    assert log[..2] == [Unlink(step.output), Unlink(command)];
    assert log[..2][..1] == [Unlink(step.output)] && log[..1][..0] == [];
    var state := Replay(files, log[..2]);
    assert Replay(files, log[..2][..1]) == files - {step.output};
    assert state == files - {step.output} - {command};
    CompilationKept(cfg, done, n);
    var r := RecordOf(cfg, done[..n], done[n]);
    assert Names(IndexAt(cfg, done), r);
    var image := map p | p in state :: state[p].content;
    CommandElsewhere(step);
    assert image[INDEX_PATH] == IndexDoc(IndexAt(cfg, done));
    assert r.commandPath == command && command !in image;
    assert !WrittenByRun(cfg, plan, image, r);
    assert CrashImage(state, image);
  }

  lemma CommandElsewhere(step: Step)
    requires InPlace(step) && step.Compile?
    ensures INDEX_PATH != CapturePath(step.job.prefix, COMMAND) && INDEX_PATH != step.output
  {
  }

  /** The log of a plan up to `n` actions into the step after `done`. */
  lemma LogInside(cfg: Config, plan: seq<Step>, done: seq<Step>, step: Step, n: nat)
    requires done + [step] <= plan && n <= |StepLog(cfg, done, step)|
    ensures |LogAt(cfg, done)| + n <= |LogAt(cfg, plan)|
    ensures LogAt(cfg, plan)[..|LogAt(cfg, done)| + n] == LogAt(cfg, done) + StepLog(cfg, done, step)[..n]
  {
    hide StepLog, Prologue;
    var ran := done + [step];
    LogPrefix(cfg, plan, |ran|);
    assert plan[..|ran|] == ran && ran[..|done|] == done;
    assert LogAt(cfg, ran) == LogAt(cfg, done) + StepLog(cfg, done, step);
  }

  lemma DuplicateUnsafe(cfg: Config, files: Files<Doc>) returns (k: nat, image: map<Path, Doc>)
    requires Accepted(cfg.manifest) && OutputsOutside(cfg.manifest)
    requires !DistinctOutputs(cfg.manifest.targets[..Compiled(cfg.manifest)])
    ensures CrashPoint(cfg, files, k, image) && !Safe(cfg, Plan(cfg.manifest), image)
  {
    hide Accepted, Safe, StepLog, Plan, CompileSteps, IndexAt, Replay, CrashImage, DistinctOutputs, LogAt;
    hide Compiled, FullPlan, Rest;
    var m := cfg.manifest;
    var reached := m.targets[..Compiled(m)];
    var i, j := FirstDuplicate(reached);
    assert reached[..j] == m.targets[..j];
    var done, step := UpToCases(m, m.targets[..j]), CompileStep(m, m.targets[j]);
    UpToCasesDistinct(m, m.targets[..j]);
    PlanReaches(m, j);
    FullPlanInPlace(m);
    assert InPlace(Plan(m)[|done|]) && Plan(m)[|done|] == step;
    assert AllInPlace(done) by {
      assert forall n :: 0 <= n < |done| ==> done[n] == Plan(m)[n];
    }
    RunSettles(cfg, files, done);
    assert done[i + 1] == CompileStep(m, m.targets[i]);
    OverwrittenUnsafe(cfg, Replay(files, LogAt(cfg, done)), Plan(m), done, step, i + 1);
    image :| CrashImage(Replay(Replay(files, LogAt(cfg, done)), StepLog(cfg, done, step)[..2]), image)
             && !Safe(cfg, Plan(m), image);
    k := |LogAt(cfg, done)| + 2;
    LogInside(cfg, Plan(m), done, step, 2);
    assert RunLog(cfg)[..k] == LogAt(cfg, Plan(m))[..k];
    ReplayAppend(files, LogAt(cfg, done), StepLog(cfg, done, step)[..2]);
  }

  lemma PlanSafe(cfg: Config, files: Files<Doc>, k: nat, image: map<Path, Doc>)
    requires Accepted(cfg.manifest) && OutputsOutside(cfg.manifest) && NotOurs(cfg, files)
    requires DistinctOutputs(cfg.manifest.targets[..Compiled(cfg.manifest)])
    requires CrashPoint(cfg, files, k, image)
    ensures Safe(cfg, Plan(cfg.manifest), image)
  {
    hide Safe, Accepted, Replay, CrashImage, NotOurs, DistinctOutputs, InPlace, Settled, Plan, LogAt;
    hide Rest, FullPlan, Touched, Clear;
    var m := cfg.manifest;
    var plan, log, rest := Plan(m), LogAt(cfg, Plan(m)), Rest(FullPlan(m));
    FullPlanInPlace(m);
    PlanDistinct(m);
    if k <= |log| {
      assert RunLog(cfg)[..k] == log[..k];
      RunSafe(cfg, files, plan, plan, k, image);
    } else {
      var part := rest[..k - |log|];
      assert RunLog(cfg)[..k] == log + part;
      ReplayAppend(files, log, part);
      RunSettles(cfg, files, plan);
      RestIndexClear(m);
      TouchedPrefix(rest, k - |log|);
      forall i | 0 <= i < |plan| && plan[i].Captures()
        ensures Clear(part, plan[i].job.prefix)
      {
        RestClear(m, plan[i].job.prefix, i);
        ClearPart(rest, k - |log|, plan[i].job.prefix);
      }
      ClearSettled(cfg, Replay(files, log), plan, part);
      SettledSafe(cfg, Replay(Replay(files, log), part), plan, plan, image);
    }
  }

  lemma ClearPart(log: seq<Action<Doc>>, n: nat, prefix: Path)
    requires n <= |log| && Clear(log, prefix)
    ensures Clear(log[..n], prefix)
  {
    TouchedPrefix(log, n);
  }

  /** Write-ahead ordering. A run over an accepted manifest is safe, at every crash point
      and whatever its processes come to, if and only if the output names of the targets
      that it gets to compile differ from each other. */
  lemma WriteAheadOrdering(cfg: Config, files: Files<Doc>)
    requires Accepted(cfg.manifest) && OutputsOutside(cfg.manifest) && NotOurs(cfg, files)
    ensures (forall k: nat, image :: CrashPoint(cfg, files, k, image) ==> Safe(cfg, Plan(cfg.manifest), image))
        <==> DistinctOutputs(cfg.manifest.targets[..Compiled(cfg.manifest)])
  {
    hide CrashPoint, Safe, Accepted, NotOurs, DistinctOutputs, Compiled;
    if DistinctOutputs(cfg.manifest.targets[..Compiled(cfg.manifest)]) {
      forall k: nat, image | CrashPoint(cfg, files, k, image)
        ensures Safe(cfg, Plan(cfg.manifest), image)
      {
        PlanSafe(cfg, files, k, image);
      }
    } else {
      var k, image := DuplicateUnsafe(cfg, files);
    }
  }

  /** The condition is not idle: a manifest whose targets all have the same output passes
      validate_manifest, and all of them are compiled. */
  lemma AcceptedWithDuplicates()
    ensures var m := OneProgram(["make"], ["x"], Some("case"));
            && Accepted(m) && OutputsOutside(m) && Compiled(m) == |m.targets|
            && !DistinctOutputs(m.targets[..Compiled(m)])
  {
    hide Accepted, OneProgramCase;
    var m := OneProgram(["make"], ["x"], Some("case"));
    OneProgramAccepted(["make"], ["x"], Some("case"));
    assert forall t <- m.targets :: t.entry == ONE_ENTRY && t.role.Some?;
    assert ONE_ENTRY.dir[1] == "bin" && RAW[1] == "raw";
    assert "bin"[0] != "raw"[0];
    assert forall i :: 0 <= i < |m.targets| ==> m.targets[i] in m.targets;
    assert m.targets[..|m.targets|][0].output.name == m.targets[..|m.targets|][1].output.name;
  }
}
