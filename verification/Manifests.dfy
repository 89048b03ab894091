/** The test manifest and validate_manifest. */
module Manifests {
  import opened Wrappers
  import Disk

  /** A path as the manifest writes it: its text, its last component, and the directory
      in which it ends up when all links are followed. */
  datatype PathText = PathText(text: string, name: string, dir: string)

  /** `entry` is what is removed when the output's path is unlinked. */
  datatype Target = Target(source: PathText, output: PathText, entry: Disk.Path, role: Option<string>)
  datatype Case = Case(id: string, targetArgv: seq<string>, engines: seq<string>)
  datatype Engine = Engine(name: string, prefixArgv: seq<string>)

  /** Values that validate_manifest does not look at may be missing: the timeouts of the
      build and the compiler, and the targets' roles. */
  datatype Manifest = Manifest(buildArgv: seq<string>, buildTimeout: Option<real>,
                               compiler: string, compilerFlags: seq<string>, compileTimeout: Option<real>,
                               caseTimeout: real, engines: seq<Engine>, targets: seq<Target>, cases: seq<Case>)

  const EXPECTED_SOURCES: seq<string> := [
    "t01_write_binary.c", "t02_write_efault.c", "t03_read_pipe.c", "t04_open_close.c", "t05_lseek64.c",
    "t06_newfstatat.c", "t07_memory.c", "t08_getpid.c", "t09_execve.c", "exec_target.c", "t10_signal.c",
    "t11_clone_descendant.c", "t12_socketpair.c", "t13_unknown.c", "t14_exit_status.c"]

  const EXPECTED_CASES: seq<string> := [
    "t01_write_binary", "t02_write_efault", "t03_read_pipe", "t04_open_close", "t05_lseek64", "t06_newfstatat",
    "t07_memory", "t08_getpid", "t09_execve", "t10_signal", "t11_clone_descendant", "t12_socketpair",
    "t13_unknown", "t14_exit_status"]

  const ENGINES: seq<string> := ["ft_strace", "gnu", "gnu_follow"]
  const FLAGS: seq<string> := ["-Wall", "-Wextra", "-Werror", "-O0", "-g"]
  const EXEC_ARGV: seq<string> := ["portfolio_audit/bin/t09_execve", "portfolio_audit/bin/exec_target"]

  /** require_string_list */
  predicate StringList(v: seq<string>) {
    v != [] && forall s <- v :: s != ""
  }

  /** A list of strings is not empty, and neither is any of them. */
  lemma StringLists(v: seq<string>)
    ensures StringList(v) <==> |v| > 0 && forall i :: 0 <= i < |v| ==> |v[i]| > 0
  {
    assert forall i :: 0 <= i < |v| ==> v[i] in v;
  }

  function SourceNames(targets: seq<Target>): (r: seq<string>)
    ensures |r| == |targets| && forall i :: 0 <= i < |r| ==> r[i] == targets[i].source.name
  {
    seq(|targets|, (i: nat) requires i < |targets| => targets[i].source.name)
  }

  function CaseIds(cases: seq<Case>): (r: seq<string>)
    ensures |r| == |cases| && forall i :: 0 <= i < |r| ==> r[i] == cases[i].id
  {
    seq(|cases|, (i: nat) requires i < |cases| => cases[i].id)
  }

  function EngineNames(engines: seq<Engine>): (r: seq<string>)
    ensures |r| == |engines| && forall i :: 0 <= i < |r| ==> r[i] == engines[i].name
  {
    seq(|engines|, (i: nat) requires i < |engines| => engines[i].name)
  }

  function Outputs(targets: seq<Target>): set<string> {
    set t <- targets :: t.output.text
  }

  function EnginesFor(id: string): seq<string> {
    if id == "t11_clone_descendant" then ENGINES else ENGINES[..2]
  }

  /** No NUL character: what the system takes for a path or an argument. */
  predicate Passable(s: string) {
    '\0' !in s
  }

  lemma PassableStrings(argv: seq<string>)
    ensures Runnable(argv) <==> forall i, k :: 0 <= i < |argv| && 0 <= k < |argv[i]| ==> argv[i][k] as int != 0
  {
    assert forall i :: 0 <= i < |argv| ==> argv[i] in argv;
    assert forall i, k :: 0 <= i < |argv| && 0 <= k < |argv[i]| ==> argv[i][k] in argv[i];
    if Runnable(argv) {
      forall i, k | 0 <= i < |argv| && 0 <= k < |argv[i]|
        ensures argv[i][k] as int != 0
      {
        assert Passable(argv[i]);
        CharZero(argv[i][k]);
      }
    }
  }

  lemma CharZero(c: char)
    ensures c == '\0' <==> c as int == 0
  {
  }

  predicate Runnable(argv: seq<string>) {
    forall s <- argv :: Passable(s)
  }

  lemma RunnableAppend(a: seq<string>, b: seq<string>)
    ensures Runnable(a + b) <==> Runnable(a) && Runnable(b)
  {
    assert (forall s <- a :: s in a + b) && (forall s <- b :: s in a + b);
  }

  predicate TargetAccepted(t: Target) {
    && Passable(t.source.text) && Passable(t.output.text)
    && t.source.dir == "portfolio_audit/tests" && t.output.dir == "portfolio_audit/bin"
  }

  predicate CaseAccepted(c: Case, targets: seq<Target>) {
    && StringList(c.targetArgv) && c.targetArgv[0] in Outputs(targets)
    && c.engines == EnginesFor(c.id)
    && (c.id == "t09_execve" ==> c.targetArgv == EXEC_ARGV)
  }

  predicate HeadAccepted(m: Manifest) {
    && SourceNames(m.targets) == EXPECTED_SOURCES && CaseIds(m.cases) == EXPECTED_CASES
    && m.caseTimeout == 5.0 && EngineNames(m.engines) == ENGINES
    && m.compiler == "gcc" && m.compilerFlags == FLAGS
  }

  ghost predicate Accepted(m: Manifest) {
    HeadAccepted(m) && TargetsAccepted(m) && CasesAccepted(m)
  }

  datatype Error =
    | WrongSources | WrongCases | WrongTimeout | WrongEngines | WrongCompiler | Unresolvable | SourceOutside | OutputOutside
    | NotStringList | UncompiledTarget | UnknownEngine | WrongExecArgv | WrongCaseEngines

  /** The error raised for what comes before the targets, in the order of the checks. */
  function HeadError(m: Manifest): Error {
    if SourceNames(m.targets) != EXPECTED_SOURCES then WrongSources
    else if CaseIds(m.cases) != EXPECTED_CASES then WrongCases
    else if m.caseTimeout != 5.0 then WrongTimeout
    else if EngineNames(m.engines) != ENGINES then WrongEngines
    else WrongCompiler
  }

  function TargetError(t: Target): Error {
    if !Passable(t.source.text) || !Passable(t.output.text) then Unresolvable
    else if t.source.dir != "portfolio_audit/tests" then SourceOutside
    else OutputOutside
  }

  function CaseError(c: Case, targets: seq<Target>): Error {
    if !StringList(c.targetArgv) || !StringList(c.engines) then NotStringList
    else if c.targetArgv[0] !in Outputs(targets) then UncompiledTarget
    else if exists e <- c.engines :: e !in ENGINES then UnknownEngine
    else if c.id == "t09_execve" && c.targetArgv != EXEC_ARGV then WrongExecArgv
    else WrongCaseEngines
  }

  /** The order of the checks: the error is that of the first that fails. */
  lemma ErrorsInOrder(m: Manifest, t: Target, c: Case)
    ensures var sources, cases := SourceNames(m.targets) == EXPECTED_SOURCES, CaseIds(m.cases) == EXPECTED_CASES;
            var timeout, engines := m.caseTimeout == 5.0, EngineNames(m.engines) == ENGINES;
            && (!sources ==> HeadError(m) == WrongSources)
            && (sources && !cases ==> HeadError(m) == WrongCases)
            && (sources && cases && !timeout ==> HeadError(m) == WrongTimeout)
            && (sources && cases && timeout && !engines ==> HeadError(m) == WrongEngines)
            && (sources && cases && timeout && engines ==> HeadError(m) == WrongCompiler)
    ensures Passable(t.source.text) && Passable(t.output.text) ==>
              TargetError(t) == if t.source.dir != "portfolio_audit/tests" then SourceOutside else OutputOutside
    ensures StringList(c.targetArgv) && StringList(c.engines) && c.targetArgv[0] !in Outputs(m.targets) ==>
              CaseError(c, m.targets) == UncompiledTarget
    ensures StringList(c.targetArgv) && StringList(c.engines) && c.targetArgv[0] in Outputs(m.targets) ==>
              if exists e <- c.engines :: e !in ENGINES then CaseError(c, m.targets) == UnknownEngine
              else CaseError(c, m.targets)
                   == if c.id == "t09_execve" && c.targetArgv != EXEC_ARGV then WrongExecArgv else WrongCaseEngines
  {
    hide SourceNames, CaseIds, EngineNames, Outputs, StringList, Passable;
  }

  ghost predicate FirstBadTarget(m: Manifest, i: nat) {
    i < |m.targets| && !TargetAccepted(m.targets[i]) && forall k :: 0 <= k < i ==> TargetAccepted(m.targets[k])
  }

  ghost predicate FirstBadCase(m: Manifest, i: nat) {
    i < |m.cases| && !CaseAccepted(m.cases[i], m.targets) && forall k :: 0 <= k < i ==> CaseAccepted(m.cases[k], m.targets)
  }

  ghost predicate RejectedTarget(m: Manifest, error: Error) {
    exists i: nat :: FirstBadTarget(m, i) && error == TargetError(m.targets[i])
  }

  ghost predicate RejectedCase(m: Manifest, error: Error) {
    exists i: nat :: FirstBadCase(m, i) && error == CaseError(m.cases[i], m.targets)
  }

  ghost predicate TargetsAccepted(m: Manifest) {
    forall i :: 0 <= i < |m.targets| ==> TargetAccepted(m.targets[i])
  }

  ghost predicate CasesAccepted(m: Manifest) {
    forall i :: 0 <= i < |m.cases| ==> CaseAccepted(m.cases[i], m.targets)
  }

  /** Rejected for this: the first thing that is wrong. */
  ghost predicate Rejected(m: Manifest, error: Error) {
    if !HeadAccepted(m) then error == HeadError(m)
    else if !TargetsAccepted(m) then RejectedTarget(m, error)
    else RejectedCase(m, error)
  }

  method ValidateHead(m: Manifest) returns (error: Option<Error>)
    ensures error.Absent? <==> HeadAccepted(m)
    ensures error.Some? ==> error.value == HeadError(m)
  {
    hide SourceNames, CaseIds, EngineNames, EXPECTED_SOURCES, EXPECTED_CASES;
    if SourceNames(m.targets) != EXPECTED_SOURCES {
      return Some(WrongSources);
    }
    if CaseIds(m.cases) != EXPECTED_CASES {
      return Some(WrongCases);
    }
    if m.caseTimeout != 5.0 {
      return Some(WrongTimeout);
    }
    if EngineNames(m.engines) != ENGINES {
      return Some(WrongEngines);
    }
    if m.compiler != "gcc" || m.compilerFlags != FLAGS {
      return Some(WrongCompiler);
    }
    error := Absent;
  }

  method ValidateTargets(m: Manifest) returns (error: Option<Error>)
    ensures error.Absent? <==> TargetsAccepted(m)
    ensures error.Some? ==> RejectedTarget(m, error.value)
  {
    for i := 0 to |m.targets|
      invariant forall k :: 0 <= k < i ==> TargetAccepted(m.targets[k])
    {
      assert !TargetAccepted(m.targets[i]) ==> FirstBadTarget(m, i);
      if !Passable(m.targets[i].source.text) || !Passable(m.targets[i].output.text) {
        return Some(Unresolvable);
      }
      if m.targets[i].source.dir != "portfolio_audit/tests" {
        return Some(SourceOutside);
      }
      if m.targets[i].output.dir != "portfolio_audit/bin" {
        return Some(OutputOutside);
      }
    }
    error := Absent;
  }

  method ValidateCase(c: Case, m: Manifest) returns (error: Option<Error>)
    requires EngineNames(m.engines) == ENGINES
    ensures error.Absent? <==> CaseAccepted(c, m.targets)
    ensures error.Some? ==> error.value == CaseError(c, m.targets)
  {
    EnginesForIsList(c.id);
    if !StringList(c.targetArgv) || !StringList(c.engines) {
      return Some(NotStringList);
    }
    if c.targetArgv[0] !in Outputs(m.targets) {
      return Some(UncompiledTarget);
    }
    if exists e <- c.engines :: e !in EngineNames(m.engines) {
      return Some(UnknownEngine);
    }
    if c.id == "t09_execve" && c.targetArgv != EXEC_ARGV {
      return Some(WrongExecArgv);
    }
    if c.id == "t11_clone_descendant" {
      if c.engines != ENGINES {
        return Some(WrongCaseEngines);
      }
    } else if c.engines != ENGINES[..2] {
      return Some(WrongCaseEngines);
    }
    error := Absent;
  }

  method ValidateCases(m: Manifest) returns (error: Option<Error>)
    requires EngineNames(m.engines) == ENGINES
    ensures error.Absent? <==> CasesAccepted(m)
    ensures error.Some? ==> RejectedCase(m, error.value)
  {
    hide CaseAccepted, CaseError;
    for i := 0 to |m.cases|
      invariant forall k :: 0 <= k < i ==> CaseAccepted(m.cases[k], m.targets)
    {
      error := ValidateCase(m.cases[i], m);
      if error.Some? {
        assert FirstBadCase(m, i);
        return;
      }
    }
    error := Absent;
  }

  lemma EnginesForIsList(id: string)
    ensures StringList(EnginesFor(id)) && forall e <- EnginesFor(id) :: e in ENGINES
  {
  }

  /** validate_manifest: no error exactly for the accepted manifests, and otherwise the
      error of the first check that fails. */
  method ValidateManifest(m: Manifest) returns (error: Option<Error>)
    ensures error.Absent? <==> Accepted(m)
    ensures error.Some? ==> Rejected(m, error.value)
  {
    hide HeadAccepted, HeadError, TargetsAccepted, CasesAccepted, RejectedTarget, RejectedCase;
    error := ValidateHead(m);
    if error.Absent? {
      HeadNames(m);
      error := ValidateTargets(m);
      if error.Absent? {
        error := ValidateCases(m);
      }
    }
  }

  lemma HeadNames(m: Manifest)
    requires HeadAccepted(m)
    ensures EngineNames(m.engines) == ENGINES
  {
  }

  // ------------------------------------------------------- what acceptance gives

  function FindEngine(engines: seq<Engine>, name: string): (e: Option<Engine>)
    ensures e.Some? ==> e.value in engines && e.value.name == name
    ensures e.Absent? ==> forall i :: 0 <= i < |engines| ==> engines[i].name != name
  {
    if engines == [] then Absent
    else if engines[0].name == name then Some(engines[0]) else FindEngine(engines[1..], name)
  }

  /** All engine runs the cases ask for. */
  function PairCount(cases: seq<Case>): nat {
    if cases == [] then 0 else |cases[0].engines| + PairCount(cases[1..])
  }

  function ExpectedPairs(ids: seq<string>): nat {
    if ids == [] then 0 else |EnginesFor(ids[0])| + ExpectedPairs(ids[1..])
  }

  lemma {:induction false} PairsOfIds(cases: seq<Case>)
    requires forall i :: 0 <= i < |cases| ==> cases[i].engines == EnginesFor(cases[i].id)
    ensures PairCount(cases) == ExpectedPairs(CaseIds(cases))
  {
    if cases != [] {
      PairsOfIds(cases[1..]);
      assert CaseIds(cases)[1..] == CaseIds(cases[1..]);
    }
  }

  lemma TwentyNinePairs()
    ensures ExpectedPairs(EXPECTED_CASES) == 29
  {
    var rest := EXPECTED_CASES[11..];
    assert EnginesFor(EXPECTED_CASES[10]) == ENGINES && |ENGINES| == 3;
    TwoEach(EXPECTED_CASES[..10]);
    TwoEach(rest);
    assert EXPECTED_CASES == EXPECTED_CASES[..10] + ([EXPECTED_CASES[10]] + rest);
    assert ([EXPECTED_CASES[10]] + rest)[1..] == rest;
    ExpectedPairsAppend(EXPECTED_CASES[..10], [EXPECTED_CASES[10]] + rest);
  }

  lemma {:induction false} TwoEach(ids: seq<string>)
    requires "t11_clone_descendant" !in ids
    ensures ExpectedPairs(ids) == 2 * |ids|
  {
    if ids != [] {
      TwoEach(ids[1..]);
    }
  }

  lemma {:induction false} ExpectedPairsAppend(a: seq<string>, b: seq<string>)
    ensures ExpectedPairs(a + b) == ExpectedPairs(a) + ExpectedPairs(b)
  {
    if a == [] {
      assert a + b == b;
    } else {
      assert (a + b)[1..] == a[1..] + b;
      ExpectedPairsAppend(a[1..], b);
    }
  }

  lemma EngineFound(m: Manifest, i: nat, e: string)
    requires Accepted(m) && i < |m.cases| && e in m.cases[i].engines
    ensures FindEngine(m.engines, e).Some?
  {
    EnginesForIsList(m.cases[i].id);
    assert CaseAccepted(m.cases[i], m.targets);
    assert e in EngineNames(m.engines);
  }

  lemma TargetCompiled(m: Manifest, i: nat) returns (k: nat)
    requires Accepted(m) && i < |m.cases|
    ensures m.cases[i].targetArgv != []
    ensures k < |m.targets| && m.targets[k].output.text == m.cases[i].targetArgv[0]
  {
    assert CaseAccepted(m.cases[i], m.targets);
    var t :| t in m.targets && t.output.text == m.cases[i].targetArgv[0];
    k :| 0 <= k < |m.targets| && m.targets[k] == t;
  }

  /** What acceptance pins down: compiler, flags and timeout, the engines of each case, and
      the directories of sources and outputs. */
  lemma AcceptedSpells(m: Manifest)
    requires Accepted(m)
    ensures m.compiler == "gcc" && m.compilerFlags == ["-Wall", "-Wextra", "-Werror", "-O0", "-g"] && m.caseTimeout == 5.0
    ensures EngineNames(m.engines) == ["ft_strace", "gnu", "gnu_follow"]
    ensures forall i :: 0 <= i < |m.targets| ==>
              m.targets[i].source.dir == "portfolio_audit/tests" && m.targets[i].output.dir == "portfolio_audit/bin"
    ensures forall i :: 0 <= i < |m.cases| ==>
              m.cases[i].engines == if m.cases[i].id == "t11_clone_descendant" then ["ft_strace", "gnu", "gnu_follow"]
                                    else ["ft_strace", "gnu"]
    ensures forall i :: 0 <= i < |m.cases| && m.cases[i].id == "t09_execve" ==>
              m.cases[i].targetArgv == ["portfolio_audit/bin/t09_execve", "portfolio_audit/bin/exec_target"]
    ensures |m.cases| == 14 && forall i, j :: 0 <= i < j < 14 ==> m.cases[i].id != m.cases[j].id
  {
    hide Outputs, StringList, SourceNames;
    assert ENGINES[..2] == ["ft_strace", "gnu"];
    assert forall i :: 0 <= i < |m.targets| ==> TargetAccepted(m.targets[i]);
    assert forall i :: 0 <= i < |m.cases| ==> CaseAccepted(m.cases[i], m.targets);
    CasesDiffer();
    assert forall i :: 0 <= i < |m.cases| ==> CaseIds(m.cases)[i] == m.cases[i].id;
  }

  lemma CasesDiffer()
    ensures |EXPECTED_CASES| == 14 && forall i, j :: 0 <= i < j < 14 ==> EXPECTED_CASES[i] != EXPECTED_CASES[j]
  {
  }

  ghost predicate RunsCompiled(m: Manifest, c: Case) {
    c.targetArgv != [] && exists k :: 0 <= k < |m.targets| && m.targets[k].output.text == c.targetArgv[0]
  }

  /** An accepted manifest never sends the run after a missing engine or a program
      that was not compiled, and asks for exactly 15 compilations and 29 engine runs. */
  lemma AcceptedManifest(m: Manifest)
    requires Accepted(m)
    ensures |m.targets| == 15 && PairCount(m.cases) == 29
    ensures forall i, e :: 0 <= i < |m.cases| && e in m.cases[i].engines ==> FindEngine(m.engines, e).Some?
    ensures forall i :: 0 <= i < |m.cases| ==> RunsCompiled(m, m.cases[i])
  {
    forall i, e | 0 <= i < |m.cases| && e in m.cases[i].engines
      ensures FindEngine(m.engines, e).Some?
    {
      EngineFound(m, i, e);
    }
    forall i | 0 <= i < |m.cases|
      ensures RunsCompiled(m, m.cases[i])
    {
      var k := TargetCompiled(m, i);
    }
    AcceptedCounts(m);
  }

  lemma AcceptedCounts(m: Manifest)
    requires Accepted(m)
    ensures |m.targets| == 15 && PairCount(m.cases) == 29
  {
    assert |m.targets| == |SourceNames(m.targets)|;
    assert forall i :: 0 <= i < |m.cases| ==> CaseAccepted(m.cases[i], m.targets);
    PairsOfIds(m.cases);
    TwentyNinePairs();
  }

  // ------------------------------------------------------- an accepted manifest

  const ONE_OUTPUT := PathText("portfolio_audit/bin/t09_execve", "t09_execve", "portfolio_audit/bin")
  const ONE_ENTRY := Disk.Path(["portfolio_audit", "bin"], "t09_execve")

  function SourceText(name: string): PathText {
    PathText("portfolio_audit/tests/" + name, name, "portfolio_audit/tests")
  }

  /** The expected targets and cases, but every target is compiled to the same program;
      the build command, the engines' prefixes and the role are whatever they are. */
  function OneProgram(buildArgv: seq<string>, prefixArgv: seq<string>, role: Option<string>): Manifest {
    Manifest(buildArgv, Some(60.0), "gcc", FLAGS, Some(60.0), 5.0,
             seq(|ENGINES|, (i: nat) requires i < |ENGINES| => Engine(ENGINES[i], prefixArgv)),
             seq(|EXPECTED_SOURCES|, (i: nat) requires i < |EXPECTED_SOURCES| =>
               Target(SourceText(EXPECTED_SOURCES[i]), ONE_OUTPUT, ONE_ENTRY, role)),
             seq(|EXPECTED_CASES|, (i: nat) requires i < |EXPECTED_CASES| => OneProgramCase(EXPECTED_CASES[i])))
  }

  function OneProgramCase(id: string): Case {
    Case(id, if id == "t09_execve" then EXEC_ARGV else [ONE_OUTPUT.text], EnginesFor(id))
  }

  lemma SourcePassable(i: nat)
    requires i < |EXPECTED_SOURCES|
    ensures Passable(SourceText(EXPECTED_SOURCES[i]).text)
  {
    var lead, name := "portfolio_audit/tests/", EXPECTED_SOURCES[i];
    assert Passable(lead);
    NamePassable(i);
    assert forall c <- lead + name :: c in lead || c in name;
  }

  lemma NamePassable(i: nat)
    requires i < |EXPECTED_SOURCES|
    ensures Passable(EXPECTED_SOURCES[i])
  {
    if i < 5 {
    } else if i < 10 {
    } else {
    }
  }

  lemma OneProgramCaseAccepted(id: string, targets: seq<Target>)
    requires ONE_OUTPUT.text in Outputs(targets)
    ensures CaseAccepted(OneProgramCase(id), targets)
  {
    hide EnginesFor, Outputs;
    assert ONE_OUTPUT.text == "portfolio_audit/bin/t09_execve" == EXEC_ARGV[0];
  }

  lemma OneProgramHeadAccepted(buildArgv: seq<string>, prefixArgv: seq<string>, role: Option<string>)
    ensures HeadAccepted(OneProgram(buildArgv, prefixArgv, role))
  {
    hide EnginesFor, OneProgramCase;
    var m := OneProgram(buildArgv, prefixArgv, role);
    assert SourceNames(m.targets) == EXPECTED_SOURCES;
    assert CaseIds(m.cases) == EXPECTED_CASES by { OneProgramCaseIds(buildArgv, prefixArgv, role); }
    assert EngineNames(m.engines) == ENGINES;
  }

  lemma OneProgramCaseIds(buildArgv: seq<string>, prefixArgv: seq<string>, role: Option<string>)
    ensures CaseIds(OneProgram(buildArgv, prefixArgv, role).cases) == EXPECTED_CASES
  {
  }

  lemma OneProgramAccepted(buildArgv: seq<string>, prefixArgv: seq<string>, role: Option<string>)
    ensures Accepted(OneProgram(buildArgv, prefixArgv, role))
  {
    hide HeadAccepted, CaseAccepted, OneProgramCase;
    var m := OneProgram(buildArgv, prefixArgv, role);
    OneProgramHeadAccepted(buildArgv, prefixArgv, role);
    assert m.targets[0] in m.targets && m.targets[0].output == ONE_OUTPUT;
    forall i | 0 <= i < |m.targets|
      ensures TargetAccepted(m.targets[i])
    {
      SourcePassable(i);
    }
    forall i | 0 <= i < |m.cases|
      ensures CaseAccepted(m.cases[i], m.targets)
    {
      OneProgramCaseAccepted(EXPECTED_CASES[i], m.targets);
    }
  }
}
