/** What a crash can leave of a run: whatever records the index names are there. */
module WriteAhead {
  import opened Manifests
  import opened Disk
  import opened Plans
  import Numerals
  import Text
  import opened Wrappers

  // -------------------------------------------------------------- what is safe

  /** The index names the record. */
  ghost predicate Names(index: Index, r: Record) {
    || index.build == Some(r)
    || r in index.compilations
    || exists i, k :: 0 <= i < |index.cases| && 0 <= k < |index.cases[i].engines| && index.cases[i].engines[k].record == r
  }

  /** Step `i` captured the record `r`. */
  ghost predicate Recorded(cfg: Config, done: seq<Step>, r: Record, i: nat) {
    i < |done| && done[i].Captures() && r == RecordOf(cfg, done[..i], done[i])
  }

  /** What the command that step `i` ran came to. */
  function StepOutcome(cfg: Config, done: seq<Step>, i: nat): Outcome
    requires i <= |done|
  {
    cfg.outcomes(Captured(done[..i]))
  }

  /** All four files of a record are there, whole: the command and the result as the
      record says them, and the output that the command came to. */
  ghost predicate Written(image: map<Path, Doc>, r: Record, o: Outcome) {
    && r.commandPath in image && image[r.commandPath] == CommandOf(r.result)
    && r.stdoutPath in image && image[r.stdoutPath] == Raw(o.stdout)
    && r.stderrPath in image && image[r.stderrPath] == Raw(o.stderr)
    && r.resultPath in image && image[r.resultPath] == ResultDoc(r.result)
  }

  /** Some step of the run captured the record, and wrote its files. */
  ghost predicate WrittenByRun(cfg: Config, plan: seq<Step>, image: map<Path, Doc>, r: Record) {
    exists i: nat :: Recorded(cfg, plan, r, i) && Written(image, r, StepOutcome(cfg, plan, i))
  }

  ghost predicate OurIndex(cfg: Config, image: map<Path, Doc>) {
    INDEX_PATH in image && image[INDEX_PATH].IndexDoc? && image[INDEX_PATH].index.runId == cfg.runId
  }

  /** Whatever this run's index names was written before, by this run. */
  ghost predicate Safe(cfg: Config, plan: seq<Step>, image: map<Path, Doc>) {
    OurIndex(cfg, image) ==>
      forall r :: Names(image[INDEX_PATH].index, r) ==> r.result.runId == cfg.runId && WrittenByRun(cfg, plan, image, r)
  }

  /** The index on the disk before the run belongs to another run, if there is one. */
  ghost predicate NotOurs(cfg: Config, files: Files<Doc>) {
    INDEX_PATH in files ==>
      files[INDEX_PATH].synced && !(files[INDEX_PATH].content.IndexDoc? && files[INDEX_PATH].content.index.runId == cfg.runId)
  }

  ghost predicate HasSynced(files: Files<Doc>, p: Path, d: Doc) {
    p in files && files[p] == File(d, true)
  }

  ghost predicate Stored(files: Files<Doc>, r: Record, o: Outcome) {
    && HasSynced(files, r.commandPath, CommandOf(r.result))
    && HasSynced(files, r.stdoutPath, Raw(o.stdout))
    && HasSynced(files, r.stderrPath, Raw(o.stderr))
    && HasSynced(files, r.resultPath, ResultDoc(r.result))
  }

  ghost predicate StoredAt(cfg: Config, files: Files<Doc>, done: seq<Step>, i: nat)
    requires i < |done|
  {
    done[i].Captures() ==> Stored(files, RecordOf(cfg, done[..i], done[i]), StepOutcome(cfg, done, i))
  }

  /** The disk between two steps: the index is synced and every capture stored. */
  ghost predicate Settled(cfg: Config, files: Files<Doc>, done: seq<Step>) {
    && HasSynced(files, INDEX_PATH, IndexDoc(IndexAt(cfg, done)))
    && forall i :: 0 <= i < |done| ==> StoredAt(cfg, files, done, i)
  }

  lemma StoredWritten(files: Files<Doc>, r: Record, o: Outcome, image: map<Path, Doc>)
    requires Stored(files, r, o) && CrashImage(files, image)
    ensures Written(image, r, o)
  {
  }

  // -------------------------------------------------------------- whose files

  function PathsOf(prefix: Path): set<Path> {
    {CapturePath(prefix, COMMAND), CapturePath(prefix, STDOUT), CapturePath(prefix, STDERR), CapturePath(prefix, RESULT)}
  }

  lemma SuffixesLast(name: string)
    ensures Lasting(Path([], name + COMMAND)) && Lasting(Path([], name + STDOUT))
    ensures Lasting(Path([], name + STDERR)) && Lasting(Path([], name + RESULT))
    ensures (name + COMMAND)[|name + COMMAND| - 1] == 'n' && (name + RESULT)[|name + RESULT| - 1] == 'n'
    ensures (name + STDOUT)[|name + STDOUT| - 1] == 't' && (name + STDERR)[|name + STDERR| - 1] == 'r'
    ensures (name + COMMAND)[|name + COMMAND| - 6] == 'd' && (name + RESULT)[|name + RESULT| - 6] == 't'
  {
  }

  predicate IsSuffix(s: string) {
    s == COMMAND || s == STDOUT || s == STDERR || s == RESULT
  }

  /** Files of different captures, and the four files of one, have different paths. */
  lemma CapturePathInjective(p: Path, s: string, q: Path, t: string)
    requires IsSuffix(s) && IsSuffix(t) && CapturePath(p, s) == CapturePath(q, t)
    ensures p == q && s == t
  {
    SuffixesLast(p.name);
    SuffixesLast(q.name);
    assert p.name + s == q.name + t;
    assert s == t;
    assert p.name == (p.name + s)[..|p.name|] == (q.name + t)[..|q.name|] == q.name;
  }

  lemma CapturePathsLast(prefix: Path)
    ensures forall p <- PathsOf(prefix) :: Lasting(p)
    ensures Lasting(INDEX_PATH) && Lasting(ENVIRONMENT_PATH)
  {
    SuffixesLast(prefix.name);
  }

  lemma DisjointCaptures(p: Path, q: Path)
    requires p != q
    ensures PathsOf(p) !! PathsOf(q)
  {
    forall a | a in PathsOf(p) && a in PathsOf(q)
      ensures false
    {
      var s :| IsSuffix(s) && a == CapturePath(p, s);
      var t :| IsSuffix(t) && a == CapturePath(q, t);
      CapturePathInjective(p, s, q, t);
    }
  }

  // ----------------------------------------------------- what one capture does

  lemma WriteKeeps(files: Files<Doc>, path: Path, data: Doc, pid: nat, p: Path, d: Doc)
    requires Lasting(path) && Lasting(p)
    requires if p == path then d == data else HasSynced(files, p, d)
    ensures HasSynced(Replay(files, AtomicWrite(path, data, pid, EMPTY)), p, d)
  {
    if p == path {
      AtomicWriteResult(files, path, data, pid, EMPTY);
    } else {
      AtomicWriteTouches(path, data, pid, EMPTY);
      TempNeverLasting(path, pid);
      UntouchedSame(files, AtomicWrite(path, data, pid, EMPTY), p);
    }
  }

  /** After four writes to different lasting paths all four documents are there. */
  lemma FourWrites(files: Files<Doc>, pid: nat, p: seq<Path>, d: seq<Doc>)
    requires |p| == 4 && |d| == 4
    requires forall i :: 0 <= i < 4 ==> Lasting(p[i])
    requires forall i, j :: 0 <= i < j < 4 ==> p[i] != p[j]
    ensures var after := Replay(files, AtomicWrite(p[0], d[0], pid, EMPTY) + AtomicWrite(p[1], d[1], pid, EMPTY)
                                       + AtomicWrite(p[2], d[2], pid, EMPTY) + AtomicWrite(p[3], d[3], pid, EMPTY));
            forall i :: 0 <= i < 4 ==> HasSynced(after, p[i], d[i])
  {
    hide AtomicWrite, HasSynced, Lasting, Replay;
    var w0, w1 := AtomicWrite(p[0], d[0], pid, EMPTY), AtomicWrite(p[1], d[1], pid, EMPTY);
    var w2, w3 := AtomicWrite(p[2], d[2], pid, EMPTY), AtomicWrite(p[3], d[3], pid, EMPTY);
    ReplayAppend(files, w0, w1);
    ReplayAppend(files, w0 + w1, w2);
    ReplayAppend(files, w0 + w1 + w2, w3);
    var s0 := Replay(files, w0);
    var s1 := Replay(s0, w1);
    var s2 := Replay(s1, w2);
    WriteKeeps(files, p[0], d[0], pid, p[0], d[0]);
    WriteKeeps(s0, p[1], d[1], pid, p[0], d[0]);
    WriteKeeps(s0, p[1], d[1], pid, p[1], d[1]);
    forall i | 0 <= i < 3
      ensures HasSynced(s2, p[i], d[i])
    {
      WriteKeeps(s1, p[2], d[2], pid, p[i], d[i]);
    }
    forall i | 0 <= i < 4
      ensures HasSynced(Replay(s2, w3), p[i], d[i])
    {
      WriteKeeps(s2, p[3], d[3], pid, p[i], d[i]);
    }
  }

  lemma CaptureStores(files: Files<Doc>, cfg: Config, job: Job, o: Outcome)
    ensures Stored(Replay(files, CaptureLog(cfg, job, o)), RecordFor(cfg, job, o), o)
  {
    hide AtomicWrite, Replay, CapturePath;
    var r := RecordFor(cfg, job, o);
    var p := [r.commandPath, r.stdoutPath, r.stderrPath, r.resultPath];
    var d := [CommandOf(r.result), Raw(o.stdout), Raw(o.stderr), ResultDoc(r.result)];
    FourPaths(job.prefix);
    FourWrites(Replay(files, CleanLog(job.prefix)), cfg.pid, p, d);
    var w0, w1 := AtomicWrite(p[0], d[0], cfg.pid, EMPTY), AtomicWrite(p[1], d[1], cfg.pid, EMPTY);
    var w2, w3 := AtomicWrite(p[2], d[2], cfg.pid, EMPTY), AtomicWrite(p[3], d[3], cfg.pid, EMPTY);
    ReplayAppend(files, CleanLog(job.prefix), w0 + w1 + w2 + w3);
    Regroup5(CleanLog(job.prefix), w0, w1, w2, w3);
    var after := Replay(files, CaptureLog(cfg, job, o));
    assert HasSynced(after, p[0], d[0]) && HasSynced(after, p[1], d[1]);
    assert HasSynced(after, p[2], d[2]) && HasSynced(after, p[3], d[3]);
  }

  lemma Regroup5<T>(a: seq<T>, b: seq<T>, c: seq<T>, d: seq<T>, e: seq<T>)
    ensures a + (b + c + d + e) == a + b + c + d + e
  {
  }

  lemma FourPaths(prefix: Path)
    ensures var p := [CapturePath(prefix, COMMAND), CapturePath(prefix, STDOUT),
                      CapturePath(prefix, STDERR), CapturePath(prefix, RESULT)];
            && (forall i :: 0 <= i < 4 ==> Lasting(p[i]) && p[i] in PathsOf(prefix))
            && (forall i, j :: 0 <= i < j < 4 ==> p[i] != p[j])
  {
    CapturePathsLast(prefix);
    if CapturePath(prefix, COMMAND) == CapturePath(prefix, STDOUT) { CapturePathInjective(prefix, COMMAND, prefix, STDOUT); }
    if CapturePath(prefix, COMMAND) == CapturePath(prefix, STDERR) { CapturePathInjective(prefix, COMMAND, prefix, STDERR); }
    if CapturePath(prefix, COMMAND) == CapturePath(prefix, RESULT) { CapturePathInjective(prefix, COMMAND, prefix, RESULT); }
    if CapturePath(prefix, STDOUT) == CapturePath(prefix, STDERR) { CapturePathInjective(prefix, STDOUT, prefix, STDERR); }
    if CapturePath(prefix, STDOUT) == CapturePath(prefix, RESULT) { CapturePathInjective(prefix, STDOUT, prefix, RESULT); }
    if CapturePath(prefix, STDERR) == CapturePath(prefix, RESULT) { CapturePathInjective(prefix, STDERR, prefix, RESULT); }
  }

  /** A capture touches only its own four files and temporary ones. */
  lemma CaptureTouches(cfg: Config, job: Job, o: Outcome)
    ensures forall p <- Touched(CaptureLog(cfg, job, o)) :: Lasting(p) ==> p in PathsOf(job.prefix)
  {
    hide AtomicWrite, CapturePath, Lasting;
    var r := RecordFor(cfg, job, o);
    var w0 := AtomicWrite(r.commandPath, CommandOf(r.result), cfg.pid, EMPTY);
    var w1 := AtomicWrite(r.stdoutPath, Raw(o.stdout), cfg.pid, EMPTY);
    var w2 := AtomicWrite(r.stderrPath, Raw(o.stderr), cfg.pid, EMPTY);
    var w3 := AtomicWrite(r.resultPath, ResultDoc(r.result), cfg.pid, EMPTY);
    var clean := CleanLog(job.prefix);
    TouchedAppend(clean + w0 + w1 + w2, w3);
    TouchedAppend(clean + w0 + w1, w2);
    TouchedAppend(clean + w0, w1);
    TouchedAppend(clean, w0);
    CleanTouches(job.prefix);
    AtomicWriteTouches(r.commandPath, CommandOf(r.result), cfg.pid, EMPTY);
    AtomicWriteTouches(r.stdoutPath, Raw(o.stdout), cfg.pid, EMPTY);
    AtomicWriteTouches(r.stderrPath, Raw(o.stderr), cfg.pid, EMPTY);
    AtomicWriteTouches(r.resultPath, ResultDoc(r.result), cfg.pid, EMPTY);
    TempNeverLasting(r.commandPath, cfg.pid);
    TempNeverLasting(r.stdoutPath, cfg.pid);
    TempNeverLasting(r.stderrPath, cfg.pid);
    TempNeverLasting(r.resultPath, cfg.pid);
  }

  lemma CleanTouches(prefix: Path)
    ensures Touched(CleanLog(prefix)) == PathsOf(prefix)
  {
    hide CapturePath;
    var l := CleanLog(prefix);
    assert l[..3][..2] == l[..2] && l[..2][..1] == l[..1] && l[..1][..0] == [];
    assert Touched(l[..1]) == {l[0].path};
    assert Touched(l[..2]) == {l[0].path, l[1].path};
    assert Touched(l[..3]) == {l[0].path, l[1].path, l[2].path};
  }

  // ---------------------------------------------------------- one step of the run

  predicate OutsideRaw(p: Path) {
    !(RAW <= p.dir)
  }

  predicate BelowRaw(prefix: Path) {
    RAW <= prefix.dir && |prefix.dir| >= 3
  }

  /** Where a plan puts things: captures in directories below raw/, programs elsewhere. */
  ghost predicate InPlace(step: Step) {
    && (step.Captures() ==> BelowRaw(step.job.prefix))
    && (step.Compile? ==> OutsideRaw(step.output))
  }

  lemma GrowNames(cfg: Config, index: Index, done: seq<Step>, step: Step, r: Record)
    requires Names(Grow(cfg, index, done, step), r)
    ensures Names(index, r) || (step.Captures() && r == RecordOf(cfg, done, step))
  {
    hide RecordOf;
    var grown := Grow(cfg, index, done, step);
    if step.RunEngine? && index.cases != [] && grown.build != Some(r) && r !in grown.compilations {
      var i, k :| 0 <= i < |grown.cases| && 0 <= k < |grown.cases[i].engines| && grown.cases[i].engines[k].record == r;
      if i < |index.cases| - 1 {
        assert grown.cases[i] == index.cases[i];
      } else if k < |index.cases[i].engines| {
        assert index.cases[i].engines[k].record == r;
      }
    } else if step.OpenCase? && grown.build != Some(r) && r !in grown.compilations {
      var i, k :| 0 <= i < |grown.cases| && 0 <= k < |grown.cases[i].engines| && grown.cases[i].engines[k].record == r;
      assert grown.cases[i] == index.cases[i];
    }
  }

  /** Every record the index names was captured by some step of the run. */
  lemma {:induction false} NamesRecorded(cfg: Config, done: seq<Step>, r: Record)
    requires Names(IndexAt(cfg, done), r)
    ensures exists i: nat :: Recorded(cfg, done, r, i)
  {
    hide RecordOf;
    assert done != [];
    var front, last := done[..|done| - 1], done[|done| - 1];
    GrowNames(cfg, IndexAt(cfg, front), front, last, r);
    if Names(IndexAt(cfg, front), r) {
      NamesRecorded(cfg, front, r);
      var i: nat :| Recorded(cfg, front, r, i);
      assert done[..i] == front[..i];
      assert Recorded(cfg, done, r, i);
    } else {
      assert Recorded(cfg, done, r, |done| - 1);
    }
  }

  /** Whatever is found on a disk that is settled after `done` is safe. */
  lemma SettledSafe(cfg: Config, files: Files<Doc>, done: seq<Step>, plan: seq<Step>, image: map<Path, Doc>)
    requires Settled(cfg, files, done) && CrashImage(files, image) && done <= plan
    ensures Safe(cfg, plan, image)
  {
    hide Stored, Written, IndexAt, Names, RecordFor, Captured;
    assert image[INDEX_PATH] == IndexDoc(IndexAt(cfg, done));
    forall r | Names(IndexAt(cfg, done), r)
      ensures r.result.runId == cfg.runId && WrittenByRun(cfg, plan, image, r)
    {
      NamesRecorded(cfg, done, r);
      var i: nat :| Recorded(cfg, done, r, i);
      assert StoredAt(cfg, files, done, i);
      StoredWritten(files, r, StepOutcome(cfg, done, i), image);
      assert plan[i] == done[i] && plan[..i] == done[..i];
      RecordOurs(cfg, done[i].job, StepOutcome(cfg, done, i));
      assert Recorded(cfg, plan, r, i) && Written(image, r, StepOutcome(cfg, plan, i));
    }
  }

  lemma RecordOurs(cfg: Config, job: Job, o: Outcome)
    ensures RecordFor(cfg, job, o).result.runId == cfg.runId
  {
  }

  /** No earlier capture had this prefix. */
  ghost predicate NewPrefix(done: seq<Step>, prefix: Path) {
    forall i :: 0 <= i < |done| && done[i].Captures() ==> done[i].job.prefix != prefix
  }

  ghost predicate AllInPlace(done: seq<Step>) {
    forall i :: 0 <= i < |done| ==> InPlace(done[i])
  }

  /** The lasting files a step's work touches. */
  lemma WorkTouches(cfg: Config, done: seq<Step>, step: Step, p: Path)
    requires InPlace(step) && Lasting(p) && p in Touched(WorkLog(cfg, done, step))
    ensures OutsideRaw(p) || (step.Captures() && p in PathsOf(step.job.prefix))
  {
    hide CaptureLog, Lasting, PathsOf;
    if step.Captures() {
      CaptureTouches(cfg, step.job, cfg.outcomes(Captured(done)));
      if step.Compile? {
        TouchedAppend([Action<Doc>.Unlink(step.output)], CaptureLog(cfg, step.job, cfg.outcomes(Captured(done))));
        assert Touched([Action<Doc>.Unlink(step.output)]) == {step.output};
      } else {
        assert WorkLog(cfg, done, step) == CaptureLog(cfg, step.job, cfg.outcomes(Captured(done)));
      }
    }
  }

  /** A log keeps clear of a capture: no lasting file of it is touched. */
  ghost predicate Clear(log: seq<Action<Doc>>, prefix: Path) {
    PathsOf(prefix) !! Touched(log)
  }

  lemma ClearKeeps(files: Files<Doc>, log: seq<Action<Doc>>, cfg: Config, job: Job, o: Outcome)
    requires Stored(files, RecordFor(cfg, job, o), o) && Clear(log, job.prefix)
    ensures Stored(Replay(files, log), RecordFor(cfg, job, o), o)
  {
    hide CapturePath, Touched, Replay, ResultFor;
    var r := RecordFor(cfg, job, o);
    UntouchedSame(files, log, r.commandPath);
    UntouchedSame(files, log, r.stdoutPath);
    UntouchedSame(files, log, r.stderrPath);
    UntouchedSame(files, log, r.resultPath);
  }

  /** A checkpoint keeps clear of every capture below raw/. */
  lemma CheckpointClear(cfg: Config, index: Index, prefix: Path)
    requires |prefix.dir| >= 3
    ensures Clear(Checkpoint(cfg, index), prefix) && Clear(Checkpoint(cfg, index)[..3], prefix)
    ensures INDEX_PATH !in Touched(Checkpoint(cfg, index)[..3])
  {
    AtomicWriteTouches(INDEX_PATH, IndexDoc(index), cfg.pid, EMPTY);
    TempNeverLasting(INDEX_PATH, cfg.pid);
    CapturePathsLast(prefix);
  }

  /** A step's work keeps clear of every earlier capture and of the index. */
  lemma WorkClear(cfg: Config, done: seq<Step>, step: Step, prefix: Path)
    requires InPlace(step) && BelowRaw(prefix) && (step.Captures() ==> step.job.prefix != prefix)
    ensures Clear(WorkLog(cfg, done, step), prefix)
    ensures INDEX_PATH !in Touched(WorkLog(cfg, done, step))
  {
    hide WorkLog, Touched;
    CapturePathsLast(prefix);
    forall p | p in Touched(WorkLog(cfg, done, step)) && (p in PathsOf(prefix) || p == INDEX_PATH)
      ensures false
    {
      WorkTouches(cfg, done, step, p);
      assert !OutsideRaw(p);
      if step.Captures() {
        DisjointCaptures(step.job.prefix, prefix);
      }
    }
  }

  /** A log that keeps clear of all earlier captures and of the index changes nothing
      of what is settled. */
  lemma ClearSettled(cfg: Config, files: Files<Doc>, done: seq<Step>, log: seq<Action<Doc>>)
    requires Settled(cfg, files, done) && INDEX_PATH !in Touched(log)
    requires forall i :: 0 <= i < |done| && done[i].Captures() ==> Clear(log, done[i].job.prefix)
    ensures Settled(cfg, Replay(files, log), done)
  {
    hide Replay, IndexAt, Touched, Stored, RecordFor, Clear;
    UntouchedSame(files, log, INDEX_PATH);
    forall i | 0 <= i < |done|
      ensures StoredAt(cfg, Replay(files, log), done, i)
    {
      assert StoredAt(cfg, files, done, i);
      if done[i].Captures() {
        ClearKeeps(files, log, cfg, done[i].job, StepOutcome(cfg, done, i));
      }
    }
  }

  /** A step's work, up to anywhere, keeps clear of the index and of earlier captures. */
  lemma WorkKeepsClear(cfg: Config, done: seq<Step>, step: Step)
    requires AllInPlace(done) && InPlace(step) && (step.Captures() ==> NewPrefix(done, step.job.prefix))
    ensures INDEX_PATH !in Touched(WorkLog(cfg, done, step))
    ensures forall i :: 0 <= i < |done| && done[i].Captures() ==> Clear(WorkLog(cfg, done, step), done[i].job.prefix)
  {
    hide WorkLog, Touched, Clear;
    WorkIndexClear(cfg, done, step);
    forall i | 0 <= i < |done| && done[i].Captures()
      ensures Clear(WorkLog(cfg, done, step), done[i].job.prefix)
    {
      assert InPlace(done[i]);
      WorkClear(cfg, done, step, done[i].job.prefix);
    }
  }

  /** Between the first action of a step and its last, the index of the step before
      is on the disk and all captures that were stored still are. */
  lemma MidStep(cfg: Config, files: Files<Doc>, done: seq<Step>, step: Step, k: nat)
    requires Settled(cfg, files, done) && AllInPlace(done) && InPlace(step)
    requires step.Captures() ==> NewPrefix(done, step.job.prefix)
    requires k < |StepLog(cfg, done, step)|
    ensures Settled(cfg, Replay(files, StepLog(cfg, done, step)[..k]), done)
  {
    hide WorkLog, Checkpoint, Settled, Replay, IndexAt, Touched, PathsOf;
    var log, now := StepLog(cfg, done, step), IndexAt(cfg, done + [step]);
    var work, check := WorkLog(cfg, done, step), Checkpoint(cfg, now);
    CheckpointFour(cfg, now);
    assert log[..|log| - 1] == work + check[..3];
    assert log[..|log| - 1][..k] == log[..k];
    TouchedPrefix(log[..|log| - 1], k);
    TouchedAppend(work, check[..3]);
    WorkKeepsClear(cfg, done, step);
    CheckpointClear(cfg, now, Path(["", "", ""], ""));
    forall i | 0 <= i < |done| && done[i].Captures()
      ensures Clear(log[..k], done[i].job.prefix)
    {
      assert InPlace(done[i]);
      assert Clear(work, done[i].job.prefix);
      CheckpointClear(cfg, now, done[i].job.prefix);
    }
    ClearSettled(cfg, files, done, log[..k]);
  }

  lemma CheckpointFour(cfg: Config, index: Index)
    ensures |Checkpoint(cfg, index)| == 4
  {
  }

  lemma WorkIndexClear(cfg: Config, done: seq<Step>, step: Step)
    requires InPlace(step)
    ensures INDEX_PATH !in Touched(WorkLog(cfg, done, step))
  {
    var elsewhere := Path(RAW + [""], if step.Captures() && step.job.prefix.name == "" then "x" else "");
    WorkClear(cfg, done, step, elsewhere);
  }

  /** The work of a capturing step stores its record. */
  lemma WorkStores(cfg: Config, files: Files<Doc>, done: seq<Step>, step: Step)
    requires step.Captures()
    ensures Stored(Replay(files, WorkLog(cfg, done, step)), RecordOf(cfg, done, step), cfg.outcomes(Captured(done)))
  {
    hide CaptureLog, Stored, Replay, RecordFor;
    var first: seq<Action<Doc>> := if step.Compile? then [Unlink(step.output)] else [];
    var capture := CaptureLog(cfg, step.job, cfg.outcomes(Captured(done)));
    assert WorkLog(cfg, done, step) == first + capture;
    ReplayAppend(files, first, capture);
    CaptureStores(Replay(files, first), cfg, step.job, cfg.outcomes(Captured(done)));
  }

  /** After a step's work, and before its checkpoint, its capture is stored as well. */
  lemma WorkSettles(cfg: Config, files: Files<Doc>, done: seq<Step>, step: Step, i: nat)
    requires Settled(cfg, files, done) && AllInPlace(done) && InPlace(step) && i <= |done|
    requires step.Captures() ==> NewPrefix(done, step.job.prefix)
    ensures StoredAt(cfg, Replay(files, WorkLog(cfg, done, step)), done + [step], i)
  {
    hide WorkLog, Stored, Replay, IndexAt, Touched, RecordFor, Captured;
    var worked := Replay(files, WorkLog(cfg, done, step));
    assert (done + [step])[..i] == done[..i];
    if i < |done| {
      WorkKeepsClear(cfg, done, step);
      ClearSettled(cfg, files, done, WorkLog(cfg, done, step));
      assert StoredAt(cfg, worked, done, i);
    } else if step.Captures() {
      assert done[..i] == done;
      WorkStores(cfg, files, done, step);
    }
  }

  /** At the end of a step the new index is on the disk, and all captures are stored. */
  lemma EndStep(cfg: Config, files: Files<Doc>, done: seq<Step>, step: Step)
    requires Settled(cfg, files, done) && AllInPlace(done) && InPlace(step)
    requires step.Captures() ==> NewPrefix(done, step.job.prefix)
    ensures Settled(cfg, Replay(files, StepLog(cfg, done, step)), done + [step])
  {
    hide WorkLog, Checkpoint, Stored, Replay, IndexAt, Touched, RecordFor, Captured;
    var ran := done + [step];
    var now := IndexAt(cfg, ran);
    var work, check := WorkLog(cfg, done, step), Checkpoint(cfg, now);
    var worked := Replay(files, work);
    ReplayAppend(files, work, check);
    CheckpointDone(cfg, worked, now);
    forall i | 0 <= i < |ran|
      ensures StoredAt(cfg, Replay(worked, check), ran, i)
    {
      WorkSettles(cfg, files, done, step, i);
      if ran[i].Captures() {
        CheckpointClear(cfg, now, ran[i].job.prefix);
        ClearKeeps(worked, check, cfg, ran[i].job, StepOutcome(cfg, ran, i));
      }
    }
  }

  lemma CheckpointDone(cfg: Config, files: Files<Doc>, index: Index)
    ensures HasSynced(Replay(files, Checkpoint(cfg, index)), INDEX_PATH, IndexDoc(index))
  {
    AtomicWriteResult(files, INDEX_PATH, IndexDoc(index), cfg.pid, EMPTY);
  }

  // ------------------------------------------------------------- the whole run

  ghost predicate DistinctPrefixes(done: seq<Step>) {
    forall i, j :: 0 <= i < j < |done| && done[i].Captures() && done[j].Captures() ==> done[i].job.prefix != done[j].job.prefix
  }

  /** The prologue publishes the empty index. */
  lemma PrologueSettles(cfg: Config, files: Files<Doc>)
    ensures Settled(cfg, Replay(files, Prologue(cfg)), [])
  {
    var environment := AtomicWrite(ENVIRONMENT_PATH, EnvironmentDoc(cfg.runId, cfg.environment), cfg.pid, EMPTY);
    ReplayAppend(files, environment, Checkpoint(cfg, Initial(cfg)));
    CheckpointDone(cfg, Replay(files, environment), Initial(cfg));
  }

  /** Until then the index on the disk is that of another run. */
  lemma PrologueNotOurs(cfg: Config, files: Files<Doc>, k: nat, image: map<Path, Doc>)
    requires NotOurs(cfg, files) && k < |Prologue(cfg)|
    requires CrashImage(Replay(files, Prologue(cfg)[..k]), image)
    ensures !OurIndex(cfg, image)
  {
    hide Replay, Touched, Lasting;
    var environment := AtomicWrite(ENVIRONMENT_PATH, EnvironmentDoc(cfg.runId, cfg.environment), cfg.pid, EMPTY);
    var check := Checkpoint(cfg, Initial(cfg));
    CheckpointFour(cfg, Initial(cfg));
    var log := Prologue(cfg);
    assert log[..|log| - 1] == environment + check[..3];
    assert log[..|log| - 1][..k] == log[..k];
    TouchedPrefix(log[..|log| - 1], k);
    TouchedAppend(environment, check[..3]);
    CheckpointClear(cfg, Initial(cfg), Path(["", "", ""], ""));
    EnvironmentElsewhere(cfg);
    UntouchedSame(files, log[..k], INDEX_PATH);
  }

  lemma EnvironmentElsewhere(cfg: Config)
    ensures INDEX_PATH !in Touched(AtomicWrite(ENVIRONMENT_PATH, EnvironmentDoc(cfg.runId, cfg.environment), cfg.pid, EMPTY))
  {
    AtomicWriteTouches(ENVIRONMENT_PATH, EnvironmentDoc(cfg.runId, cfg.environment), cfg.pid, EMPTY);
    TempNeverLasting(ENVIRONMENT_PATH, cfg.pid);
    CapturePathsLast(ENVIRONMENT_PATH);
    assert ENVIRONMENT_PATH.name[0] != INDEX_PATH.name[0];
  }

  lemma {:induction false} RunSettles(cfg: Config, files: Files<Doc>, done: seq<Step>)
    requires AllInPlace(done) && DistinctPrefixes(done)
    ensures Settled(cfg, Replay(files, LogAt(cfg, done)), done)
  {
    hide Settled, InPlace, Replay, StepLog, Prologue;
    if done == [] {
      PrologueSettles(cfg, files);
    } else {
      var front, last := done[..|done| - 1], done[|done| - 1];
      RunSettles(cfg, files, front);
      ReplayAppend(files, LogAt(cfg, front), StepLog(cfg, front, last));
      EndStep(cfg, Replay(files, LogAt(cfg, front)), front, last);
      assert front + [last] == done;
    }
  }

  /** With distinct prefixes every crash point of the run is safe: `done` is as much of
      the plan as the log reaches into. */
  lemma {:induction false} RunSafe(cfg: Config, files: Files<Doc>, plan: seq<Step>, done: seq<Step>, k: nat,
                                   image: map<Path, Doc>)
    requires AllInPlace(done) && DistinctPrefixes(done) && NotOurs(cfg, files) && done <= plan
    requires k <= |LogAt(cfg, done)| && CrashImage(Replay(files, LogAt(cfg, done)[..k]), image)
    ensures Safe(cfg, plan, image)
    decreases |done|
  {
    hide Settled, InPlace, Replay, StepLog, Prologue, OurIndex, CrashImage, NotOurs, WrittenByRun;
    var log := LogAt(cfg, done);
    if k == |log| {
      assert log[..k] == log;
      RunSettles(cfg, files, done);
      SettledSafe(cfg, Replay(files, log), done, plan, image);
    } else if done == [] {
      PrologueNotOurs(cfg, files, k, image);
    } else {
      var front, last := done[..|done| - 1], done[|done| - 1];
      var before, step := LogAt(cfg, front), StepLog(cfg, front, last);
      if k <= |before| {
        assert log[..k] == before[..k];
        RunSafe(cfg, files, plan, front, k, image);
      } else {
        var m := k - |before|;
        assert log[..k] == before + step[..m];
        ReplayAppend(files, before, step[..m]);
        RunSettles(cfg, files, front);
        MidStep(cfg, Replay(files, before), front, last, m);
        SettledSafe(cfg, Replay(Replay(files, before), step[..m]), front, plan, image);
      }
    }
  }
}
