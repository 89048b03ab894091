/** Runs of run_baseline.py one after the other on the same disk, each of them cut short
    anywhere. */
module Reruns {
  import opened Disk
  import opened Manifests
  import opened Plans
  import opened WriteAhead
  import opened Ordering
  import opened Checkpoints

  /** The disk as the next run finds it. */
  function Restart(image: map<Path, Doc>): Files<Doc> {
    map p | p in image :: File(image[p], true)
  }

  /** A run that found `before` on the disk, and left `image` after `k` actions. */
  ghost predicate CutShort(cfg: Config, before: map<Path, Doc>, k: nat, image: map<Path, Doc>) {
    CrashPoint(cfg, Restart(before), k, image)
  }

  /** `image` can be on the disk after these runs: the first finds no index there, and
      each of the others what the one before it has left. */
  ghost predicate Left(runs: seq<Config>, image: map<Path, Doc>)
    decreases |runs|
  {
    if runs == [] then INDEX_PATH !in image
    else
      var front, cfg := runs[..|runs| - 1], runs[|runs| - 1];
      exists before: map<Path, Doc>, k: nat :: Left(front, before) && CutShort(cfg, before, k, image)
  }

  /** What a run needs to be safe by itself. */
  ghost predicate Sound(cfg: Config) {
    && Accepted(cfg.manifest) && OutputsOutside(cfg.manifest)
    && DistinctOutputs(cfg.manifest.targets[..Compiled(cfg.manifest)])
  }

  ghost predicate Series(runs: seq<Config>) {
    && (forall i :: 0 <= i < |runs| ==> Sound(runs[i]))
    && forall i, j :: 0 <= i < j < |runs| ==> runs[i].runId != runs[j].runId
  }

  ghost predicate Owns(cfg: Config, image: map<Path, Doc>) {
    OurIndex(cfg, image) && Safe(cfg, Plan(cfg.manifest), image)
  }

  /** Whichever run the index belongs to, all that it names is there, as that run wrote it. */
  ghost predicate SafeForOwner(runs: seq<Config>, image: map<Path, Doc>) {
    INDEX_PATH in image ==> exists i :: 0 <= i < |runs| && Owns(runs[i], image)
  }

  /** Until its first checkpoint is over, a run leaves every lasting file alone but for
      the environment record. */
  lemma PrologueKeeps(cfg: Config, before: map<Path, Doc>, k: nat, image: map<Path, Doc>, p: Path)
    requires k < |Prologue(cfg)| && CutShort(cfg, before, k, image)
    requires Lasting(p) && p != ENVIRONMENT_PATH
    ensures (p in image <==> p in before) && (p in before ==> image[p] == before[p])
  {
    hide Replay, Touched, Lasting, RunLog;
    var files, log := Restart(before), Prologue(cfg);
    var environment := AtomicWrite(ENVIRONMENT_PATH, EnvironmentDoc(cfg.runId, cfg.environment), cfg.pid, EMPTY);
    var check := Checkpoint(cfg, Initial(cfg));
    PrologueFirst(cfg, k);
    CheckpointFour(cfg, Initial(cfg));
    assert log[..|log| - 1] == environment + check[..3];
    assert log[..|log| - 1][..k] == log[..k];
    TouchedPrefix(log[..|log| - 1], k);
    TouchedAppend(environment, check[..3]);
    AtomicWriteTouches(ENVIRONMENT_PATH, EnvironmentDoc(cfg.runId, cfg.environment), cfg.pid, EMPTY);
    AtomicWriteTouches(INDEX_PATH, IndexDoc(Initial(cfg)), cfg.pid, EMPTY);
    TempNeverLasting(ENVIRONMENT_PATH, cfg.pid);
    TempNeverLasting(INDEX_PATH, cfg.pid);
    UntouchedSame(files, log[..k], p);
  }

  /** So a capture below raw/ stays as it was. */
  lemma CaptureKept(cfg: Config, before: map<Path, Doc>, k: nat, image: map<Path, Doc>, owner: Config, job: Job, o: Outcome)
    requires k < |Prologue(cfg)| && CutShort(cfg, before, k, image)
    requires BelowRaw(job.prefix) && Written(before, RecordFor(owner, job, o), o)
    ensures Written(image, RecordFor(owner, job, o), o)
  {
    hide CutShort, CapturePath, Prologue, ResultFor;
    var r := RecordFor(owner, job, o);
    CapturePathsLast(job.prefix);
    NotEnvironment(job.prefix);
    PrologueKeeps(cfg, before, k, image, r.commandPath);
    PrologueKeeps(cfg, before, k, image, r.stdoutPath);
    PrologueKeeps(cfg, before, k, image, r.stderrPath);
    PrologueKeeps(cfg, before, k, image, r.resultPath);
  }

  lemma NotEnvironment(prefix: Path)
    requires BelowRaw(prefix)
    ensures ENVIRONMENT_PATH !in PathsOf(prefix)
  {
    assert |ENVIRONMENT_PATH.dir| == 2;
  }

  /** The index that an earlier run left stays safe until it is replaced. */
  lemma OwnerKept(cfg: Config, before: map<Path, Doc>, k: nat, image: map<Path, Doc>, owner: Config)
    requires k < |Prologue(cfg)| && CutShort(cfg, before, k, image)
    requires Owns(owner, before) && OutputsOutside(owner.manifest)
    ensures Owns(owner, image)
  {
    hide CutShort, Prologue, Plan, Written, Names, OutputsOutside;
    var plan := Plan(owner.manifest);
    CapturePathsLast(INDEX_PATH);
    assert INDEX_PATH != ENVIRONMENT_PATH by { EnvironmentApart(); }
    PrologueKeeps(cfg, before, k, image, INDEX_PATH);
    FullPlanInPlace(owner.manifest);
    forall r | Names(image[INDEX_PATH].index, r)
      ensures r.result.runId == owner.runId && WrittenByRun(owner, plan, image, r)
    {
      assert Names(before[INDEX_PATH].index, r);
      var i: nat :| Recorded(owner, plan, r, i) && Written(before, r, StepOutcome(owner, plan, i));
      assert InPlace(plan[i]);
      CaptureKept(cfg, before, k, image, owner, plan[i].job, StepOutcome(owner, plan, i));
      assert Recorded(owner, plan, r, i) && Written(image, r, StepOutcome(owner, plan, i));
    }
  }

  lemma EnvironmentApart()
    ensures INDEX_PATH != ENVIRONMENT_PATH
  {
    assert ENVIRONMENT_PATH.name[0] != INDEX_PATH.name[0];
  }

  /** From its first checkpoint on the index is the run's own. */
  lemma OwnIndex(cfg: Config, files: Files<Doc>, k: nat, image: map<Path, Doc>)
    requires Sound(cfg) && NotOurs(cfg, files) && CrashPoint(cfg, files, k, image) && |Prologue(cfg)| <= k
    ensures Owns(cfg, image)
  {
    hide CrashPoint, Prologue, Plan, NotOurs, Safe, Accepted, OutputsOutside, DistinctOutputs, Compiled;
    RunIndexWhole(cfg, files, k, image);
    RunIdKept(cfg, Plan(cfg.manifest)[..Published(cfg, Plan(cfg.manifest), k)]);
    PlanSafe(cfg, files, k, image);
  }

  /** Write-ahead ordering over any number of runs, each of them stopped or crashed
      anywhere: whichever run owns the index on the disk, everything it names is there. */
  lemma {:induction false} RerunsSafe(runs: seq<Config>, image: map<Path, Doc>)
    requires Series(runs) && Left(runs, image)
    ensures SafeForOwner(runs, image)
    decreases |runs|
  {
    hide CrashPoint, Prologue, Owns, Sound, Restart;
    if runs != [] {
      var front, cfg := runs[..|runs| - 1], runs[|runs| - 1];
      var before: map<Path, Doc>, k: nat :| Left(front, before) && CutShort(cfg, before, k, image);
      RerunsSafe(front, before);
      if k < |Prologue(cfg)| {
        IndexKept(cfg, before, k, image);
        if INDEX_PATH in before {
          var i :| 0 <= i < |front| && Owns(front[i], before);
          assert front[i] == runs[i] && Sound(runs[i]);
          SoundOutside(runs[i]);
          OwnerKept(cfg, before, k, image, runs[i]);
        }
      } else {
        if INDEX_PATH in before {
          var i :| 0 <= i < |front| && Owns(front[i], before);
          OwnerOf(front[i], before);
          assert front[i].runId != cfg.runId;
        }
        FoundNotOurs(cfg, before);
        OwnIndex(cfg, Restart(before), k, image);
        assert Owns(runs[|runs| - 1], image);
      }
    }
  }

  lemma FoundNotOurs(cfg: Config, before: map<Path, Doc>)
    requires !OurIndex(cfg, before)
    ensures NotOurs(cfg, Restart(before))
  {
  }

  lemma IndexKept(cfg: Config, before: map<Path, Doc>, k: nat, image: map<Path, Doc>)
    requires k < |Prologue(cfg)| && CutShort(cfg, before, k, image)
    ensures INDEX_PATH in image <==> INDEX_PATH in before
  {
    hide CutShort, Prologue;
    CapturePathsLast(INDEX_PATH);
    EnvironmentApart();
    PrologueKeeps(cfg, before, k, image, INDEX_PATH);
  }

  lemma SoundOutside(cfg: Config)
    requires Sound(cfg)
    ensures OutputsOutside(cfg.manifest)
  {
  }

  lemma OwnerOf(cfg: Config, image: map<Path, Doc>)
    requires Owns(cfg, image)
    ensures OurIndex(cfg, image)
  {
  }
}
