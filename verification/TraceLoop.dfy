/** trace: the event loop, its state machine, and the runs of that machine. */
module TraceLoop {
  import opened Numerals
  import opened Tracee
  import opened SyscallTable
  import opened CallPrinter
  import opened Text
  import opened Wrappers

  // -------------------------------------------------------- what the kernel says

  datatype SigInfo = SigInfo(signo: int, code: int, pid: int, uid: u32)

  /** The answers to one round of the loop: ptrace(PTRACE_SYSCALL) fails, waitpid
      fails, or a status arrives together with what the process looks like then. */
  datatype Event =
    | ResumeFails
    | WaitFails
    | Arrived(status: int, mem: Memory, siginfo: Option<SigInfo>, regset: RegSet)

  /** Text of the C library: sigabbrev_np and strerror. */
  datatype Libc = Libc(sigabbrev: int -> string, strerror: int -> string)

  datatype Env = Env(child: int, tables: Tables, libc: Libc) {
    predicate Valid() {
      tables.WellFormed()
    }
  }

  // The macros of <sys/wait.h> on a status word.
  predicate Exited(status: int) {
    status % 0x80 == 0
  }

  predicate Signaled(status: int) {
    1 <= status % 0x80 <= 0x7e
  }

  predicate Stopped(status: int) {
    status % 0x100 == 0x7f
  }

  function StopSignal(status: int): int {
    status / 0x100 % 0x100
  }

  function EventBits(status: int): int {
    status / 0x10000
  }

  const SYSCALL_STOP := 0x85  // SIGTRAP | 0x80

  /** The words the kernel encodes for an exit, a death by signal (with or without a
      core dump) and a stop are told apart, and a stop's word is taken apart again. */
  lemma StatusWords(code: nat, sig: nat, core: bool, stop: nat, event: int)
    requires 1 <= sig < 0x7f && stop < 0x100
    ensures var w := 0x100 * code; Exited(w) && !Signaled(w) && !Stopped(w)
    ensures var w := sig + if core then 0x80 else 0; Signaled(w) && !Exited(w) && !Stopped(w)
    ensures var w := 0x7f + 0x100 * stop + 0x10000 * event;
            Stopped(w) && !Exited(w) && !Signaled(w) && StopSignal(w) == stop && EventBits(w) == event
  {
    Bits(stop + 0x100 * event, 0x7f, 0x100);
    Bits(2 * stop + 0x200 * event, 0x7f, 0x80);
    Bits(event, stop, 0x100);
    Bits(event, 0x7f + 0x100 * stop, 0x10000);
    if core {
      Bits(1, sig, 0x80);
      Bits(0, sig + 0x80, 0x100);
    } else {
      Bits(0, sig, 0x80);
      Bits(0, sig, 0x100);
    }
    Bits(2 * code, 0, 0x80);
    Bits(code, 0, 0x100);
  }

  lemma Bits(high: int, low: nat, unit: nat)
    requires low < unit && (unit == 0x80 || unit == 0x100 || unit == 0x10000)
    ensures (unit * high + low) / unit == high && (unit * high + low) % unit == low
  {
    if unit == 0x80 {
    } else if unit == 0x100 {
    } else {
    }
  }

  /** What a round of the loop amounts to. */
  datatype Kind =
    | Failure
    | Ended(mem: Memory)
    | Ignored
    | Lost(sig: int)
    | Delivery(sig: int, info: SigInfo)
    | Syscall(regs: SyscallArgs, mem: Memory)
  {
    predicate Last() {
      Failure? || Ended? || Lost?
    }
  }

  function KindOf(e: Event): (k: Kind)
    ensures k.Syscall? ==> k.regs.Valid()
  {
    if !e.Arrived? then Failure
    else if Exited(e.status) || Signaled(e.status) then Ended(e.mem)
    else if !Stopped(e.status) || EventBits(e.status) != 0 then Ignored
    else if StopSignal(e.status) != SYSCALL_STOP then
      if e.siginfo.Absent? then Lost(StopSignal(e.status)) else Delivery(StopSignal(e.status), e.siginfo.value)
    else
      match ReadRegisters(e.regset)
      case Absent => Failure
      case Some(regs) => Syscall(regs, e.mem)
  }

  // -------------------------------------------------------------- the transcript

  /** A piece of the transcript, with the memory reads made for it. */
  datatype Piece =
    | Head(text: string, fetched: seq<Read>)
    | Tail(text: string, fetched: seq<Read>)
    | SignalLine(text: string)
    | ModeLine(text: string)
  {
    predicate OfCall() {
      Head? || Tail?
    }

    function Reads(): seq<Read> {
      if OfCall() then fetched else []
    }
  }

  function Render(pieces: seq<Piece>): string {
    if pieces == [] then "" else Render(pieces[..|pieces| - 1]) + pieces[|pieces| - 1].text
  }

  function ReadsOf(pieces: seq<Piece>): seq<Read> {
    if pieces == [] then [] else ReadsOf(pieces[..|pieces| - 1]) + pieces[|pieces| - 1].Reads()
  }

  lemma {:induction false} RenderAppend(a: seq<Piece>, b: seq<Piece>)
    ensures Render(a + b) == Render(a) + Render(b)
    ensures ReadsOf(a + b) == ReadsOf(a) + ReadsOf(b)
  {
    if b == [] {
      assert a + b == a;
    } else {
      var front, last := b[..|b| - 1], b[|b| - 1];
      assert (a + b)[..|a + b| - 1] == a + front;
      RenderAppend(a, front);
      Assoc(Render(a), Render(front), last.text);
      Assoc(ReadsOf(a), ReadsOf(front), last.Reads());
    }
  }

  function SignalText(sig: int, info: SigInfo, libc: Libc): string {
    "--- " + libc.sigabbrev(sig) + " {si_signo=" + libc.sigabbrev(info.signo) + ", si_code=" + SignedDec(info.code)
    + ", si_pid=" + SignedDec(info.pid) + ", si_uid=" + Dec(info.uid) + "} ---\n"
  }

  function ModeText(child: int, compat: bool): string {
    "[ Process PID=" + SignedDec(child) + " runs in " + (if compat then "32" else "64") + " bit mode. ]\n"
  }

  function ResultText(regs: SyscallArgs, libc: Libc): string {
    match ErrnoOf(ResultOf(regs))
    case Some(e) => " = -1 " + libc.strerror(e) + "\n"
    case Absent => " = " + Hex(regs.rax) + "\n"
  }

  function RowOf(env: Env, entry: SyscallArgs): (row: Option<Row>)
    requires env.Valid()
    ensures row.Some? ==> row.value.WellFormed()
  {
    LookupSyscall(entry, env.tables)
  }

  function HeadOf(env: Env, entry: SyscallArgs, mem: Memory): Piece
    requires env.Valid() && entry.Valid()
  {
    var row := RowOf(env, entry);
    Head(EntryText(entry, row, mem), EntryReads(entry, row, mem))
  }

  function TailOf(env: Env, entry: SyscallArgs, result: int, mem: Memory, ending: string): Piece
    requires env.Valid() && entry.Valid() && result < TWO63
  {
    var row := RowOf(env, entry);
    Tail(FinishText(entry, row, ResumeAt(row), result, mem) + ending,
         FinishReads(entry, row, ResumeAt(row), result, mem))
  }

  function ReturnTail(env: Env, entry: SyscallArgs, exit: SyscallArgs, mem: Memory): (t: Piece)
    requires env.Valid() && entry.Valid()
    ensures t.Tail?
  {
    TailOf(env, entry, ResultOf(exit), mem, ResultText(exit, env.libc))
  }

  function DeathTail(env: Env, entry: SyscallArgs, mem: Memory): Piece
    requires env.Valid() && entry.Valid()
  {
    TailOf(env, entry, -1, mem, " = ?\n")
  }

  function ModeLines(env: Env, before: bool, now: bool): seq<Piece> {
    if before != now then [ModeLine(ModeText(env.child, now))] else []
  }

  // ----------------------------------------------------------- the state machine

  /** `inCall` is the pending call while in_syscall is set; `abi` is the ABI of the
      last syscall stop. */
  datatype State = State(inCall: Option<SyscallArgs>, abi: bool) {
    predicate Valid() {
      inCall.Some? ==> inCall.value.Valid()
    }
  }

  const START := State(Absent, false)

  function Step(env: Env, st: State, k: Kind): seq<Piece>
    requires env.Valid() && st.Valid() && (k.Syscall? ==> k.regs.Valid())
  {
    match k
    case Failure => []
    case Lost(_) => []
    case Ignored => []
    case Ended(mem) => if st.inCall.Some? then [DeathTail(env, st.inCall.value, mem)] else []
    case Delivery(sig, info) => [SignalLine(SignalText(sig, info, env.libc))]
    case Syscall(regs, mem) =>
      if st.inCall.Some? then [ReturnTail(env, st.inCall.value, regs, mem)] + ModeLines(env, st.abi, regs.compat)
      else ModeLines(env, st.abi, regs.compat) + [HeadOf(env, regs, mem)]
  }

  function Next(st: State, k: Kind): State {
    if k.Syscall? then State(if st.inCall.Some? then Absent else Some(k.regs), k.regs.compat) else st
  }

  /** Everything the loop prints from state `st` on. */
  function Transcript(env: Env, st: State, events: seq<Event>): seq<Piece>
    requires env.Valid() && st.Valid()
    decreases |events|
  {
    if events == [] then []
    else
      var k := KindOf(events[0]);
      Step(env, st, k) + if k.Last() then [] else Transcript(env, Next(st, k), events[1..])
  }

  function DeliverAfter(k: Kind): int {
    if k.Delivery? then k.sig else 0
  }

  /** The signal numbers handed to ptrace(PTRACE_SYSCALL), round by round. */
  function Resumes(events: seq<Event>, deliver: int): seq<int> {
    if events == [] then []
    else
      var k := KindOf(events[0]);
      [deliver] + if k.Last() then [] else Resumes(events[1..], DeliverAfter(k))
  }

  datatype Outcome = Running | Failing | Finished

  function OutcomeOf(events: seq<Event>): Outcome {
    if events == [] then Running
    else
      var k := KindOf(events[0]);
      if k.Ended? then Finished else if k.Last() then Failing else OutcomeOf(events[1..])
  }

  /** What *status is left at: the last status that arrived, or `status` if none did. */
  function LastStatus(events: seq<Event>, status: int): int {
    if events == [] || !events[0].Arrived? then status
    else if KindOf(events[0]).Last() then events[0].status
    else LastStatus(events[1..], events[0].status)
  }

  /** A finished run leaves the status with which the tracee terminated, for main to
      report: an exit or a signal, never both. */
  lemma {:induction false} FinishedStatus(events: seq<Event>, status: int)
    requires OutcomeOf(events) == Finished
    ensures exists i :: 0 <= i < |events| && KindOf(events[i]).Ended? && events[i].status == LastStatus(events, status)
    ensures Exited(LastStatus(events, status)) <==> !Signaled(LastStatus(events, status))
    decreases |events|
  {
    if KindOf(events[0]).Ended? {
      assert events[0].status == LastStatus(events, status);
    } else {
      FinishedStatus(events[1..], events[0].status);
      var i :| 0 <= i < |events[1..]| && KindOf(events[1..][i]).Ended?
               && events[1..][i].status == LastStatus(events[1..], events[0].status);
      assert events[1 + i] == events[1..][i];
    }
  }

  // -------------------------------------------------------------------- the loop

  /** The loop's variables agree with the machine's state. */
  predicate Pending(env: Env, st: State, call: PendingCall, inSyscall: bool, compat: bool)
    requires env.Valid()
    reads call
  {
    && st.Valid() && st.abi == compat && (st.inCall.Some? <==> inSyscall)
    && (inSyscall ==>
          && call.Valid() && call.entry == st.inCall.value
          && call.syscall == RowOf(env, call.entry) && call.nextArg == ResumeAt(call.syscall))
  }

  /** The exit stop of a pending call: the rest of its record and its result. */
  method FinishCall(err: Stderr, p: Process, env: Env, call: PendingCall, regs: SyscallArgs)
    requires env.Valid() && call.Valid()
    requires call.syscall == RowOf(env, call.entry) && call.nextArg == ResumeAt(call.syscall)
    modifies err, p`readLog
    ensures err.text == old(err.text) + ReturnTail(env, call.entry, regs, p.mem).text
    ensures p.readLog == old(p.readLog) + ReturnTail(env, call.entry, regs, p.mem).fetched
  {
    hide FinishText, FinishReads, LookupSyscall, TableFor, Hex;
    ghost var start := err.text;
    ghost var text := FinishText(call.entry, call.syscall, call.nextArg, ResultOf(regs), p.mem);
    var result := if regs.compat then Int32(regs.rax) else Int64(regs.rax);
    FinishArgs(err, p, call, result);
    if result < 0 && result >= -4095 {
      err.Fputs(" = -1 " + env.libc.strerror(-result) + "\n");
    } else {
      err.Fputs(" = " + Hex(regs.rax) + "\n");
    }
    Assoc(start, text, ResultText(regs, env.libc));
  }

  /** The tracee is gone: the rest of the pending record, and no result. */
  method AbandonCall(err: Stderr, p: Process, env: Env, call: PendingCall)
    requires env.Valid() && call.Valid()
    requires call.syscall == RowOf(env, call.entry) && call.nextArg == ResumeAt(call.syscall)
    modifies err, p`readLog
    ensures err.text == old(err.text) + Render([DeathTail(env, call.entry, p.mem)])
    ensures p.readLog == old(p.readLog) + ReadsOf([DeathTail(env, call.entry, p.mem)])
  {
    hide FinishText, FinishReads, LookupSyscall, TableFor;
    ghost var start, tail := err.text, DeathTail(env, call.entry, p.mem);
    FinishArgs(err, p, call, -1);
    err.Fputs(" = ?\n");
    Assoc(start, FinishText(call.entry, call.syscall, call.nextArg, -1, p.mem), " = ?\n");
    RenderSmall(tail, tail);
  }

  lemma RenderSmall(a: Piece, b: Piece)
    ensures Render([a]) == a.text && ReadsOf([a]) == a.Reads()
    ensures Render([a, b]) == a.text + b.text && ReadsOf([a, b]) == a.Reads() + b.Reads()
  {
    assert [a, b][..1] == [a];
  }

  method NoteMode(err: Stderr, env: Env, compat: bool, now: bool)
    modifies err
    ensures err.text == old(err.text) + Render(ModeLines(env, compat, now))
  {
    hide ModeText;
    ghost var mode := ModeLine(ModeText(env.child, now));
    RenderSmall(mode, mode);
    if compat != now {
      err.Fputs(ModeText(env.child, now));
    }
  }

  lemma ModeLinesReadNothing(env: Env, before: bool, now: bool)
    ensures ReadsOf(ModeLines(env, before, now)) == []
  {
    RenderSmall(ModeLine(ModeText(env.child, now)), ModeLine(ModeText(env.child, now)));
  }

  /** The text and the reads of a step at a syscall stop. */
  lemma SyscallStep(env: Env, st: State, regs: SyscallArgs, mem: Memory)
    requires env.Valid() && st.Valid() && regs.Valid()
    ensures var step, modes := Step(env, st, Syscall(regs, mem)), Render(ModeLines(env, st.abi, regs.compat));
            if st.inCall.Some? then
              var tail := ReturnTail(env, st.inCall.value, regs, mem);
              Render(step) == tail.text + modes && ReadsOf(step) == tail.fetched
            else
              var head := HeadOf(env, regs, mem);
              Render(step) == modes + head.text && ReadsOf(step) == head.fetched
  {
    hide ModeLines, ReturnTail, RowOf, EntryText, EntryReads, Render, ReadsOf;
    ModeLinesReadNothing(env, st.abi, regs.compat);
    if st.inCall.Some? {
      var tail := ReturnTail(env, st.inCall.value, regs, mem);
      RenderSmall(tail, tail);
      RenderAppend([tail], ModeLines(env, st.abi, regs.compat));
      assert tail.fetched + [] == tail.fetched;
    } else {
      var head := HeadOf(env, regs, mem);
      RenderSmall(head, head);
      RenderAppend(ModeLines(env, st.abi, regs.compat), [head]);
      assert [] + head.fetched == head.fetched;
    }
  }

  /** A syscall stop: finish the pending call, note a change of ABI, or start a
      new call. */
  method SyscallStop(err: Stderr, p: Process, env: Env, call: PendingCall, inSyscall: bool, compat: bool,
                     regs: SyscallArgs, ghost st: State)
    requires env.Valid() && regs.Valid() && Pending(env, st, call, inSyscall, compat)
    modifies err, p`readLog, call
    ensures Pending(env, Next(st, Syscall(regs, p.mem)), call, !inSyscall, regs.compat)
    ensures err.text == old(err.text) + Render(Step(env, st, Syscall(regs, p.mem)))
    ensures p.readLog == old(p.readLog) + ReadsOf(Step(env, st, Syscall(regs, p.mem)))
  {
    hide EntryText, EntryReads, LookupSyscall, TableFor, ModeLines, ReturnTail, Step, Render, ReadsOf;
    ghost var start := err.text;
    ghost var modes := Render(ModeLines(env, compat, regs.compat));
    SyscallStep(env, st, regs, p.mem);
    if inSyscall {
      FinishCall(err, p, env, call, regs);
      Assoc(start, ReturnTail(env, call.entry, regs, p.mem).text, modes);
    }
    NoteMode(err, env, compat, regs.compat);
    if !inSyscall {
      call.entry := regs;
      PrintEntry(err, p, call, env.tables);
      Assoc(start, modes, HeadOf(env, regs, p.mem).text);
    }
  }

  /** After `n` rounds: the machine stands in `st`, has emitted `done` and handed
      out `handed`, and what is still to come completes the run. */
  ghost predicate Progress(env: Env, script: seq<Event>, n: nat, st: State, deliver: int, status: int,
                           done: seq<Piece>, handed: seq<int>)
    requires env.Valid()
  {
    && st.Valid() && n <= |script|
    && OutcomeOf(script) == OutcomeOf(script[n..]) && LastStatus(script, 0) == LastStatus(script[n..], status)
    && Transcript(env, START, script) == done + Transcript(env, st, script[n..])
    && Resumes(script, 0) == handed + Resumes(script[n..], deliver)
  }

  lemma RunStarts(env: Env, script: seq<Event>)
    requires env.Valid()
    ensures Progress(env, script, 0, START, 0, 0, [], [])
    ensures Render([]) == "" && ReadsOf([]) == []
  {
    assert script[0..] == script;
  }

  lemma RoundGoesOn(env: Env, script: seq<Event>, n: nat, st: State, deliver: int, status: int,
                    done: seq<Piece>, handed: seq<int>)
    requires env.Valid() && n < |script| && Progress(env, script, n, st, deliver, status, done, handed)
    requires !KindOf(script[n]).Last()
    ensures var k := KindOf(script[n]);
            Progress(env, script, n + 1, Next(st, k), DeliverAfter(k), script[n].status,
                     done + Step(env, st, k), handed + [deliver])
  {
    var k := KindOf(script[n]);
    assert script[n..][1..] == script[n + 1..];
    Assoc(done, Step(env, st, k), Transcript(env, Next(st, k), script[n + 1..]));
    Assoc(handed, [deliver], Resumes(script[n + 1..], DeliverAfter(k)));
  }

  lemma RoundEnds(env: Env, script: seq<Event>, n: nat, st: State, deliver: int, status: int,
                  done: seq<Piece>, handed: seq<int>)
    requires env.Valid() && n < |script| && Progress(env, script, n, st, deliver, status, done, handed)
    requires KindOf(script[n]).Last()
    ensures OutcomeOf(script) == if KindOf(script[n]).Ended? then Finished else Failing
    ensures LastStatus(script, 0) == if script[n].Arrived? then script[n].status else status
    ensures Transcript(env, START, script) == done + Step(env, st, KindOf(script[n]))
    ensures Resumes(script, 0) == handed + [deliver]
  {
    assert Step(env, st, KindOf(script[n])) + [] == Step(env, st, KindOf(script[n]));
  }

  lemma ScriptEnds(env: Env, script: seq<Event>, st: State, deliver: int, status: int, done: seq<Piece>, handed: seq<int>)
    requires env.Valid() && Progress(env, script, |script|, st, deliver, status, done, handed)
    ensures OutcomeOf(script) == Running && LastStatus(script, 0) == status
    ensures Transcript(env, START, script) == done && Resumes(script, 0) == handed
  {
  }

  lemma Emit(text: string, log: seq<Read>, done: seq<Piece>, now: seq<Piece>)
    ensures text + Render(done + now) == text + Render(done) + Render(now)
    ensures log + ReadsOf(done + now) == log + ReadsOf(done) + ReadsOf(now)
    ensures now == [] ==> Render(now) == [] && ReadsOf(now) == []
    ensures |now| == 1 ==> Render(now) == now[0].text && ReadsOf(now) == now[0].Reads()
  {
    RenderAppend(done, now);
    Assoc(text, Render(done), Render(now));
    Assoc(log, ReadsOf(done), ReadsOf(now));
  }

  /** trace(): `script` is what the kernel answers, one event per round; a script
      that ends early leaves the loop waiting. */
  method Trace(err: Stderr, p: Process, env: Env, script: seq<Event>) returns (outcome: Outcome, status: int)
    requires env.Valid()
    modifies err, p
    ensures outcome == OutcomeOf(script) && status == LastStatus(script, 0)
    ensures err.text == old(err.text) + Render(Transcript(env, START, script))
    ensures p.readLog == old(p.readLog) + ReadsOf(Transcript(env, START, script))
    ensures p.resumes == old(p.resumes) + Resumes(script, 0)
  {
    hide Transcript, Resumes, OutcomeOf, LastStatus, Progress, Render, ReadsOf;
    hide SignalText, EntryText, EntryReads, FinishText, FinishReads, ReadRegisters, LookupSyscall, TableFor;
    var call := new PendingCall(SyscallArgs([0, 0, 0, 0, 0, 0], 0, 0, false));
    var inSyscall, deliver, compat := false, 0, false;
    ghost var st, done, handed := START, [], [];
    ghost var text, log, resumes := err.text, p.readLog, p.resumes;
    status := 0;
    RunStarts(env, script);
    for n := 0 to |script|
      invariant Pending(env, st, call, inSyscall, compat) && fresh(call)
      invariant Progress(env, script, n, st, deliver, status, done, handed)
      invariant err.text == text + Render(done) && p.readLog == log + ReadsOf(done)
      invariant p.resumes == resumes + handed
    {
      var event := script[n];
      ghost var k := KindOf(event);
      ghost var now := Step(env, st, k);
      if k.Last() {
        RoundEnds(env, script, n, st, deliver, status, done, handed);
      } else {
        RoundGoesOn(env, script, n, st, deliver, status, done, handed);
      }
      Emit(text, log, done, now);
      Assoc(resumes, handed, [deliver]);
      p.resumes := p.resumes + [deliver];
      handed := handed + [deliver];
      if !event.Arrived? {
        return Failing, status;
      }
      p.mem := event.mem;
      status := event.status;
      deliver := 0;
      if Exited(status) || Signaled(status) {
        if inSyscall {
          AbandonCall(err, p, env, call);
        }
        return Finished, status;
      }
      if !Stopped(status) || EventBits(status) != 0 {
        done := done + now;
        continue;
      }
      var sig := StopSignal(status);
      if sig != SYSCALL_STOP {
        if event.siginfo.Absent? {
          return Failing, status;
        }
        err.Fputs(SignalText(sig, event.siginfo.value, env.libc));
        deliver := sig;
        done := done + now;
        continue;
      }
      var regs := ReadRegisters(event.regset);
      if regs.Absent? {
        return Failing, status;
      }
      SyscallStop(err, p, env, call, inSyscall, compat, regs.value, st);
      st, done := Next(st, k), done + now;
      inSyscall, compat := !inSyscall, regs.value.compat;
    }
    ScriptEnds(env, script, st, deliver, status, done, handed);
    outcome := Running;
  }
}
