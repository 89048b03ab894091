/** The syscall tables of include/strace_data.h and the register sets of
    include/user.h: read_registers and lookup_syscall. */
module SyscallTable {
  import opened Numerals
  import opened Wrappers

  datatype ArgType =
    | Padding | None | Fd | Str | InputBytes | OutputBytes | VStr | Flags | Mode | Size | Offset
    | Pid | Uid | Gid | Signal | StructPtr | Ptr | Uint | Ulong | Long | Int
  {
    /** Printed from the register alone, without reading the tracee. */
    predicate IsScalar() {
      !(this.Str? || this.InputBytes? || this.OutputBytes? || this.VStr?)
    }
  }

  const MAX_ARGS: nat := 6
  const TABLE_SIZE: nat := 0x1d6

  datatype Row = Row(name: string, argCount: nat, argType: seq<ArgType>) {

    /** What every row of both tables satisfies: six type tags, and a byte buffer
        is followed by the argument that holds its length. */
    predicate WellFormed() {
      && argCount <= MAX_ARGS == |argType|
      && forall i :: 0 <= i < argCount && (argType[i].InputBytes? || argType[i].OutputBytes?) ==> i + 1 < argCount
    }

    /** The index of the first kernel-filled buffer, or the argument count. */
    function FirstOutput(i: nat := 0): (f: nat)
      requires WellFormed() && i <= argCount
      ensures i <= f <= argCount
      ensures forall k :: i <= k < f ==> !argType[k].OutputBytes?
      ensures f < argCount ==> argType[f].OutputBytes?
      decreases argCount - i
    {
      if i == argCount || argType[i].OutputBytes? then i else FirstOutput(i + 1)
    }

    /** Only scalars come after the first kernel-filled buffer, as in both tables. */
    predicate ScalarTail() {
      && WellFormed()
      && forall i :: FirstOutput() < i < argCount ==> argType[i].IsScalar()
    }
  }

  /** Indexed by syscall number; a gap is a row without a name. */
  type Table = seq<Option<Row>>

  datatype Tables = Tables(sys64: Table, sys32: Table) {
    predicate WellFormed() {
      TableWellFormed(sys64) && TableWellFormed(sys32)
    }
  }

  predicate TableWellFormed(table: Table) {
    && |table| == TABLE_SIZE
    && forall i :: 0 <= i < |table| && table[i].Some? ==> table[i].value.WellFormed()
  }

  /** struct user_regs_struct64 and user_regs_struct32: the fields the tracer uses. */
  datatype UserRegs64 = UserRegs64(rdi: u64, rsi: u64, rdx: u64, r10: u64, r8: u64, r9: u64, origRax: u64, rax: u64)
  datatype UserRegs32 = UserRegs32(ebx: u32, ecx: u32, edx: u32, esi: u32, edi: u32, ebp: u32, origEax: u32, eax: u32)

  /** PTRACE_GETREGSET: failure, or a register set told apart by its length. */
  datatype RegSet = Failed | Regs64(regs64: UserRegs64) | Regs32(regs32: UserRegs32) | OtherLength

  /** t_syscall_args */
  datatype SyscallArgs = SyscallArgs(arg: seq<u64>, origAx: u64, rax: u64, compat: bool) {
    predicate Valid() {
      |arg| == MAX_ARGS
    }
  }

  datatype Register64 = RDI | RSI | RDX | R10 | R8 | R9
  datatype Register32 = EBX | ECX | EDX | ESI | EDI | EBP

  /** Argument order of the kernel interface: section A.2.1 of the System V ABI AMD64
      supplement, and the i386 convention. */
  const ORDER64 := [RDI, RSI, RDX, R10, R8, R9]
  const ORDER32 := [EBX, ECX, EDX, ESI, EDI, EBP]

  function Holds64(r: UserRegs64, reg: Register64): u64 {
    match reg
    case RDI => r.rdi
    case RSI => r.rsi
    case RDX => r.rdx
    case R10 => r.r10
    case R8 => r.r8
    case R9 => r.r9
  }

  function Holds32(r: UserRegs32, reg: Register32): u32 {
    match reg
    case EBX => r.ebx
    case ECX => r.ecx
    case EDX => r.edx
    case ESI => r.esi
    case EDI => r.edi
    case EBP => r.ebp
  }

  /** read_registers: the arguments in ABI order, the syscall number and the result. An
      i386 register set leaves only 32-bit values behind. */
  function ReadRegisters(regset: RegSet): (r: Option<SyscallArgs>)
    ensures r.Some? <==> regset.Regs64? || regset.Regs32?
    ensures r.Some? ==> r.value.Valid() && (r.value.compat <==> regset.Regs32?)
    ensures regset.Regs64? ==> r.value.origAx == regset.regs64.origRax && r.value.rax == regset.regs64.rax
    ensures regset.Regs32? ==> r.value.origAx == regset.regs32.origEax && r.value.rax == regset.regs32.eax
    ensures regset.Regs64? ==> forall i :: 0 <= i < MAX_ARGS ==> r.value.arg[i] == Holds64(regset.regs64, ORDER64[i])
    ensures regset.Regs32? ==> forall i :: 0 <= i < MAX_ARGS ==> r.value.arg[i] == Holds32(regset.regs32, ORDER32[i])
    ensures r.Some? && r.value.compat ==>
              r.value.rax < TWO32 && r.value.origAx < TWO32 && forall a <- r.value.arg :: a < TWO32
  {
    match regset
    case Regs64(r) => Some(SyscallArgs([r.rdi, r.rsi, r.rdx, r.r10, r.r8, r.r9], r.origRax, r.rax, false))
    case Regs32(r) => Some(SyscallArgs([r.ebx, r.ecx, r.edx, r.esi, r.edi, r.ebp], r.origEax, r.eax, true))
    case Failed => Absent
    case OtherLength => Absent
  }

  function TableFor(tables: Tables, compat: bool): (table: Table)
    requires tables.WellFormed()
    ensures TableWellFormed(table)
    ensures compat ==> table == tables.sys32
    ensures !compat ==> table == tables.sys64
  {
    if compat then tables.sys32 else tables.sys64
  }

  /** lookup_syscall: the row of the ABI's own table, if the number names one. */
  function LookupSyscall(args: SyscallArgs, tables: Tables): (row: Option<Row>)
    requires tables.WellFormed()
    ensures row.Some? ==> row.value.WellFormed()
    ensures row.Absent? <==> args.origAx >= TABLE_SIZE || TableFor(tables, args.compat)[args.origAx].Absent?
    ensures row.Some? ==> row == TableFor(tables, args.compat)[args.origAx]
  {
    var table := TableFor(tables, args.compat);
    if args.origAx >= TABLE_SIZE || table[args.origAx].Absent? then Absent else table[args.origAx]
  }

  // ------------------------------------------------------------ return values

  /** The result register as the exit stop reads it. */
  function ResultOf(regs: SyscallArgs): (r: int)
    ensures -TWO63 <= r < TWO63
  {
    if regs.compat then Int32(regs.rax) else Int64(regs.rax)
  }

  const MAX_ERRNO := 4095

  predicate IsError(result: int) {
    result < 0 && result >= -MAX_ERRNO
  }

  function ErrnoOf(result: int): Option<int> {
    if IsError(result) then Some(-result) else Absent
  }

  /** What the kernel leaves in the result register when it returns the signed
      32-bit number `v`: eax on i386, the sign-extended rax on x86-64. */
  function Returned(v: int, compat: bool, call: SyscallArgs): SyscallArgs
    requires -TWO31 <= v < TWO31
  {
    call.(rax := if compat then v % TWO32 else v % TWO64, compat := compat)
  }

  /** Both ABIs recover the same signed number, hence the same errno, from every
      32-bit kernel result. */
  lemma AbisAgree(v: int, e: int, call: SyscallArgs)
    requires -TWO31 <= v < TWO31
    ensures ResultOf(Returned(v, true, call)) == v == ResultOf(Returned(v, false, call))
    ensures ErrnoOf(ResultOf(Returned(v, true, call))) == Some(e) <==> v == -e && 1 <= e <= MAX_ERRNO
    ensures ErrnoOf(ResultOf(Returned(v, false, call))) == Some(e) <==> v == -e && 1 <= e <= MAX_ERRNO
  {
    assert v % TWO32 == if v < 0 then v + TWO32 else v;
    assert v % TWO64 == if v < 0 then v + TWO64 else v;
  }

  /** In register terms: an error is exactly one of the top 4095 patterns of the
      ABI's own register width. */
  lemma ErrorPatterns(regs: SyscallArgs)
    requires regs.compat ==> regs.rax < TWO32
    ensures IsError(ResultOf(regs)) <==> regs.rax >= (if regs.compat then TWO32 else TWO64) - MAX_ERRNO
    ensures IsError(ResultOf(regs)) ==> -ResultOf(regs) == (if regs.compat then TWO32 else TWO64) - regs.rax
  {
    if regs.compat {
      assert regs.rax % TWO32 == regs.rax;
    }
  }

  // --------------------------------------------------------------- sample rows

  const READ := Row("read", 3, [Fd, OutputBytes, Size, Padding, Padding, Padding])
  const WRITE := Row("write", 3, [Fd, InputBytes, Size, Padding, Padding, Padding])
  const EXECVE := Row("execve", 3, [Str, VStr, Ptr, Padding, Padding, Padding])
  const GETCWD := Row("getcwd", 2, [OutputBytes, Ulong, Padding, Padding, Padding, Padding])
  const MQ_TIMEDRECEIVE := Row("mq_timedreceive", 5, [Int, OutputBytes, Size, Ptr, StructPtr, Padding])

  lemma SampleRows()
    ensures READ.ScalarTail() && READ.FirstOutput() == 1
    ensures WRITE.ScalarTail() && WRITE.FirstOutput() == 3
    ensures EXECVE.ScalarTail() && EXECVE.FirstOutput() == 3
    ensures GETCWD.ScalarTail() && GETCWD.FirstOutput() == 0
    ensures MQ_TIMEDRECEIVE.ScalarTail() && MQ_TIMEDRECEIVE.FirstOutput() == 1
  {
  }
}
