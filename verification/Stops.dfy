/** What the tracer makes of a stop, in terms of the status word, the registers and the
    signal information that the kernel delivers. */
module Stops {
  import opened Numerals
  import opened Tracee
  import opened SyscallTable
  import opened CallPrinter
  import opened TraceLoop
  import opened Buffers
  import opened Text
  import opened Wrappers

  // ------------------------------------------------------------- the status word

  /** A stop by a signal number with bit 7 set on SIGTRAP is a syscall stop, any other
      number a signal that is delivered, and a stop with event bits is passed over. */
  lemma StopKinds(stop: nat, event: int, mem: Memory, siginfo: Option<SigInfo>, regset: RegSet)
    requires stop < 0x100
    ensures var k := KindOf(Arrived(0x7f + 0x100 * stop + 0x10000 * event, mem, siginfo, regset));
            if event != 0 then k == Ignored
            else if stop != 0x85 then k == if siginfo.Some? then Delivery(stop, siginfo.value) else Lost(stop)
            else if regset.Regs64? || regset.Regs32? then k.Syscall? && k.mem == mem
            else k == Failure
  {
    hide ReadRegisters;
    StatusWords(0, 1, false, stop, event);
  }

  /** Exits, and deaths by a signal, end the run. */
  lemma EndKinds(code: nat, sig: nat, core: bool, mem: Memory, siginfo: Option<SigInfo>, regset: RegSet)
    requires 1 <= sig < 0x7f
    ensures KindOf(Arrived(0x100 * code, mem, siginfo, regset)) == Ended(mem)
    ensures KindOf(Arrived(sig + if core then 0x80 else 0, mem, siginfo, regset)) == Ended(mem)
  {
    StatusWords(code, sig, core, 0, 0);
  }

  const SYSCALL_WORD := 0x857f  // stopped by SIGTRAP | 0x80, no event

  /** A tracee that has been continued is passed over. */
  lemma Continued(mem: Memory, siginfo: Option<SigInfo>, regset: RegSet)
    ensures KindOf(Arrived(0xffff, mem, siginfo, regset)) == Ignored
  {
  }

  // --------------------------------------------------------------- the registers

  predicate Opens(text: string, lead: string) {
    |lead| <= |text| && text[..|lead|] == lead
  }

  /** How the record of a call opens: with the name that its ABI's table has for its
      number, if the number is below 470 and names a row, and else with the number. */
  ghost predicate OpensCall(text: string, table: Table, number: u64)
    requires TableWellFormed(table)
  {
    if number < 0x1d6 && table[number].Some? then Opens(text, table[number].value.name + "(")
    else text == "syscall_" + Dec(number) + "(/* unknown */)"
  }

  lemma HeadOpens(env: Env, regs: SyscallArgs, mem: Memory)
    requires env.Valid() && regs.Valid()
    ensures OpensCall(HeadOf(env, regs, mem).text, TableFor(env.tables, regs.compat), regs.origAx)
  {
    hide Dec, ArgTexts, Join;
    var row := RowOf(env, regs);
    if row.Some? {
      var f := row.value.FirstOutput();
      EntryOpens(row.value.name + "(", Join(", ", ArgTexts(regs, row.value, 0, f, 0, mem)),
                 if f == row.value.argCount then ")" else "");
    }
  }

  lemma EntryOpens(lead: string, list: string, end: string)
    ensures Opens(lead + list + end, lead)
  {
  }

  /** The entry stop of an x86-64 process: orig_rax is the number of the call, and rdi, rsi,
      rdx, r10, r8 and r9 are its arguments. */
  lemma Entry64(env: Env, g: UserRegs64, mem: Memory, siginfo: Option<SigInfo>)
    requires env.Valid()
    ensures var k := KindOf(Arrived(SYSCALL_WORD, mem, siginfo, Regs64(g)));
            && k.Syscall? && k.mem == mem && !k.regs.compat
            && k.regs.arg == [g.rdi, g.rsi, g.rdx, g.r10, g.r8, g.r9]
            && OpensCall(HeadOf(env, k.regs, mem).text, env.tables.sys64, g.origRax)
  {
    hide HeadOf, OpensCall;
    StopKinds(0x85, 0, mem, siginfo, Regs64(g));
    HeadOpens(env, KindOf(Arrived(SYSCALL_WORD, mem, siginfo, Regs64(g))).regs, mem);
  }

  /** That of an i386 process: orig_eax, and ebx, ecx, edx, esi, edi and ebp. */
  lemma Entry32(env: Env, g: UserRegs32, mem: Memory, siginfo: Option<SigInfo>)
    requires env.Valid()
    ensures var k := KindOf(Arrived(SYSCALL_WORD, mem, siginfo, Regs32(g)));
            && k.Syscall? && k.mem == mem && k.regs.compat
            && k.regs.arg == [g.ebx, g.ecx, g.edx, g.esi, g.edi, g.ebp]
            && OpensCall(HeadOf(env, k.regs, mem).text, env.tables.sys32, g.origEax)
  {
    hide HeadOf, OpensCall;
    StopKinds(0x85, 0, mem, siginfo, Regs32(g));
    HeadOpens(env, KindOf(Arrived(SYSCALL_WORD, mem, siginfo, Regs32(g))).regs, mem);
  }

  /** The exit stop of an x86-64 process: the rest of the record is printed with rax as a
      signed result, and rax closes the line: as an error if it is one of the 4095
      highest values, and as it is otherwise. */
  lemma Return64(env: Env, entry: SyscallArgs, g: UserRegs64, mem: Memory, siginfo: Option<SigInfo>)
    requires env.Valid() && entry.Valid()
    ensures var k := KindOf(Arrived(SYSCALL_WORD, mem, siginfo, Regs64(g)));
            var result := if g.rax < 0x8000_0000_0000_0000 then g.rax else g.rax - 0x1_0000_0000_0000_0000;
            && k.Syscall?
            && ReturnTail(env, entry, k.regs, mem).text
               == FinishText(entry, RowOf(env, entry), ResumeAt(RowOf(env, entry)), result, mem)
                  + if g.rax > 0xffff_ffff_ffff_f000 then " = -1 " + env.libc.strerror(0x1_0000_0000_0000_0000 - g.rax) + "\n"
                    else " = " + Hex(g.rax) + "\n"
  {
    hide Hex, FinishText, FinishReads, RowOf;
    StopKinds(0x85, 0, mem, siginfo, Regs64(g));
    ErrorPatterns(KindOf(Arrived(SYSCALL_WORD, mem, siginfo, Regs64(g))).regs);
  }

  /** The exit stop of an i386 process: eax, as a signed 32-bit result. */
  lemma Return32(env: Env, entry: SyscallArgs, g: UserRegs32, mem: Memory, siginfo: Option<SigInfo>)
    requires env.Valid() && entry.Valid()
    ensures var k := KindOf(Arrived(SYSCALL_WORD, mem, siginfo, Regs32(g)));
            var result := if g.eax < 0x8000_0000 then g.eax else g.eax - 0x1_0000_0000;
            && k.Syscall?
            && ReturnTail(env, entry, k.regs, mem).text
               == FinishText(entry, RowOf(env, entry), ResumeAt(RowOf(env, entry)), result, mem)
                  + if g.eax > 0xffff_f000 then " = -1 " + env.libc.strerror(0x1_0000_0000 - g.eax) + "\n"
                    else " = " + Hex(g.eax) + "\n"
  {
    hide Hex, FinishText, FinishReads, RowOf;
    StopKinds(0x85, 0, mem, siginfo, Regs32(g));
    ErrorPatterns(KindOf(Arrived(SYSCALL_WORD, mem, siginfo, Regs32(g))).regs);
  }

  /** A call that the tracee does not come back from is completed as one that failed, and
      ends in a question mark. */
  lemma NoReturn(env: Env, entry: SyscallArgs, mem: Memory)
    requires env.Valid() && entry.Valid()
    ensures DeathTail(env, entry, mem).text
         == FinishText(entry, RowOf(env, entry), ResumeAt(RowOf(env, entry)), -1, mem) + " = ?\n"
  {
  }

  // ------------------------------------------------------------ signal and mode lines

  /** Which value stands where in a signal line. */
  lemma SignalFields(sig: int, info: SigInfo, libc: Libc)
    ensures SignalText(sig, info, libc)
         == Concat(["--- ", libc.sigabbrev(sig), " {si_signo=", libc.sigabbrev(info.signo),
                    ", si_code=", SignedDec(info.code), ", si_pid=", SignedDec(info.pid),
                    ", si_uid=", Dec(info.uid), "} ---\n"])
  {
    hide Dec, SignedDec, Concat;
    var name, signo := libc.sigabbrev(sig), libc.sigabbrev(info.signo);
    var code, pid, uid := SignedDec(info.code), SignedDec(info.pid), Dec(info.uid);
    var parts := ["--- ", name, " {si_signo=", signo, ", si_code=", code, ", si_pid=", pid, ", si_uid=", uid, "} ---\n"];
    ConcatFront(parts, 0);
    ConcatFront(parts, 1);
    ConcatFront(parts, 2);
    ConcatFront(parts, 3);
    ConcatFront(parts, 4);
    ConcatFront(parts, 5);
    ConcatFront(parts, 6);
    ConcatFront(parts, 7);
    ConcatFront(parts, 8);
    ConcatFront(parts, 9);
    ConcatFront(parts, 10);
    assert parts[..11] == parts;
    NothingJoined(parts);
    assert "" + "--- " == "--- ";
  }

  lemma ConcatFront(parts: seq<string>, n: nat)
    requires n < |parts|
    ensures Concat(parts[..n + 1]) == Concat(parts[..n]) + parts[n]
  {
    assert parts[..n + 1] == parts[..n] + [parts[n]];
    ConcatSnoc(parts[..n], parts[n]);
  }

  lemma NothingJoined(parts: seq<string>)
    ensures Concat(parts[..0]) == ""
  {
  }

  lemma ModeTexts(child: int)
    ensures ModeText(child, true) == "[ Process PID=" + SignedDec(child) + " runs in 32 bit mode. ]\n"
    ensures ModeText(child, false) == "[ Process PID=" + SignedDec(child) + " runs in 64 bit mode. ]\n"
  {
    hide SignedDec;
  }
}
