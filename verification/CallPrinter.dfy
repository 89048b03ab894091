/** print_arg, print_entry and finish_args: one call record, printed in two parts. */
module CallPrinter {
  import opened Numerals
  import opened Tracee
  import opened Quoting
  import opened Buffers
  import opened SyscallTable
  import opened Text
  import opened Wrappers

  // ------------------------------------------------------------ one argument

  predicate ArgInBounds(args: SyscallArgs, index: nat, kind: ArgType) {
    args.Valid() && index + (if kind.InputBytes? || kind.OutputBytes? then 1 else 0) < MAX_ARGS
  }

  /** The text of argument `index`, given the call's result as known so far. */
  function ArgText(args: SyscallArgs, index: nat, kind: ArgType, result: int, mem: Memory): string
    requires ArgInBounds(args, index, kind) && result < TWO63
  {
    var value := args.arg[index];
    match kind
    case InputBytes => BytesText(mem, value, args.arg[index + 1])
    case OutputBytes =>
      if result < 0 then Hex(value) else BytesText(mem, value, Min(result, args.arg[index + 1]))
    case Str => StringText(mem, value)
    case VStr => ArgvText(value, Slots(mem, value, args.compat))
    case Offset => SignedDec(if args.compat then Int32(value) else Int64(value))
    case Long => SignedDec(if args.compat then Int32(value) else Int64(value))
    case Size => Dec(value)
    case Uint => Dec(value % TWO32)
    case Flags => Hex(value)
    case Signal => Hex(value)
    case StructPtr => Hex(value)
    case Ptr => Hex(value)
    case Ulong => Hex(value)
    case _ => SignedDec(Int32(value))
  }

  /** The reads of tracee memory that go into it. */
  function ArgReads(args: SyscallArgs, index: nat, kind: ArgType, result: int, mem: Memory): seq<Read>
    requires ArgInBounds(args, index, kind) && result < TWO63
  {
    var value := args.arg[index];
    match kind
    case InputBytes => BytesReads(value, args.arg[index + 1])
    case OutputBytes => if result < 0 then [] else BytesReads(value, Min(result, args.arg[index + 1]))
    case Str => [Read(value, STRING_LIMIT)]
    case VStr => ArgvReads(value, args.compat, Slots(mem, value, args.compat))
    case _ => []
  }

  method PrintArg(err: Stderr, p: Process, args: SyscallArgs, index: nat, kind: ArgType, result: int)
    requires ArgInBounds(args, index, kind) && result < TWO63
    modifies err, p`readLog
    ensures err.text == old(err.text) + ArgText(args, index, kind, result, p.mem)
    ensures p.readLog == old(p.readLog) + ArgReads(args, index, kind, result, p.mem)
  {
    hide BytesText, BytesReads, StringText, ArgvText, ArgvReads, Slots, Hex, Dec, SignedDec;
    var value := args.arg[index];
    match kind
    case InputBytes =>
      PrintBytes(err, p, value, args.arg[index + 1]);
    case OutputBytes =>
      if result < 0 {
        err.Fputs(Hex(value));
      } else {
        var count := args.arg[index + 1];
        if result < count {
          count := result;
        }
        PrintBytes(err, p, value, count);
      }
    case Str =>
      PrintString(err, p, value);
    case VStr =>
      PrintArgv(err, p, value, args.compat);
    case Offset =>
      err.Fputs(SignedDec(if args.compat then Int32(value) else Int64(value)));
    case Long =>
      err.Fputs(SignedDec(if args.compat then Int32(value) else Int64(value)));
    case Size =>
      err.Fputs(Dec(value));
    case Uint =>
      err.Fputs(Dec(value % TWO32));
    case Flags => err.Fputs(Hex(value));
    case Signal => err.Fputs(Hex(value));
    case StructPtr => err.Fputs(Hex(value));
    case Ptr => err.Fputs(Hex(value));
    case Ulong => err.Fputs(Hex(value));
    case _ =>
      err.Fputs(SignedDec(Int32(value)));
  }

  /** A scalar argument is read back from its text: addresses, flags and sizes as the
      whole register, offsets and longs as the signed number of the ABI's own width,
      the rest as the low 32 bits. */
  lemma ScalarReadBack(args: SyscallArgs, index: nat, kind: ArgType, result: int, mem: Memory)
    requires ArgInBounds(args, index, kind) && kind.IsScalar() && result < TWO63
    ensures var n, v := ReadNumber(ArgText(args, index, kind, result, mem)), args.arg[index];
            match kind
            case Flags => n == v
            case Signal => n == v
            case StructPtr => n == v
            case Ptr => n == v
            case Ulong => n == v
            case Size => n == v
            case Uint => 0 <= n < TWO32 && n == v % TWO32
            case Offset => if args.compat then -TWO31 <= n < TWO31 && n % TWO32 == v % TWO32
                           else -TWO63 <= n < TWO63 && n % TWO64 == v
            case Long => if args.compat then -TWO31 <= n < TWO31 && n % TWO32 == v % TWO32
                         else -TWO63 <= n < TWO63 && n % TWO64 == v
            case _ => -TWO31 <= n < TWO31 && n % TWO32 == v % TWO32
  {
    hide ReadNumber, Hex, SignedDec, Numeral;
    var v := args.arg[index];
    ReadNumberHex(v);
    ReadNumberDec(v);
    ReadNumberDec(v % TWO32);
    ReadNumberSigned(Int32(v));
    ReadNumberSigned(Int64(v));
  }

  /** Addresses, flags and signals are written in hexadecimal, the other scalars in
      decimal, with a sign exactly when negative at their width. */
  lemma ScalarNotation(args: SyscallArgs, index: nat, kind: ArgType, result: int, mem: Memory)
    requires ArgInBounds(args, index, kind) && kind.IsScalar() && result < TWO63
    ensures var text, v := ArgText(args, index, kind, result, mem), args.arg[index];
            && ((|text| > 1 && text[..2] == "0x")
                <==> kind.Flags? || kind.Signal? || kind.StructPtr? || kind.Ptr? || kind.Ulong?)
            && (text[..1] == "-" <==> ReadNumber(text) < 0)
  {
    hide ReadNumber, Hex, SignedDec, Numeral;
    var v := args.arg[index];
    HexNotation(v);
    DecNotation(v);
    DecNotation(v % TWO32);
    SignedNotation(Int32(v));
    SignedNotation(Int64(v));
  }

  ghost predicate Notation(text: string, hex: bool) {
    && text != "" && ((|text| > 1 && text[..2] == "0x") <==> hex)
    && (text[..1] == "-" <==> ReadNumber(text) < 0)
  }

  lemma HexNotation(n: nat)
    ensures Notation(Hex(n), true)
  {
    ReadNumberHex(n);
    assert Hex(n)[0] == '0' && Hex(n)[..2] == "0x";
  }

  lemma SignedNotation(n: int)
    ensures Notation(SignedDec(n), false)
  {
    var digits := Numeral(if n < 0 then -n else n, 10);
    ReadNumberSigned(n);
    assert IsDigit(digits[0], 10);
    if |digits| > 1 {
      assert IsDigit(digits[1], 10);
      assert n >= 0 ==> SignedDec(n)[..2][1] == digits[1];
    }
    assert n < 0 ==> SignedDec(n)[0] == '-';
  }

  lemma DecNotation(n: nat)
    ensures Notation(Dec(n), false)
  {
    SignedNotation(n);
    assert SignedDec(n) == Dec(n);
  }

  lemma ReadNumberDec(n: nat)
    ensures ReadNumber(Dec(n)) == n
  {
    ReadNumberSigned(n);
    assert SignedDec(n) == Dec(n);
  }

  /** A kernel-filled buffer at the exit stop. On failure only its address is shown; on
      success all that can be read of the min(result, requested) bytes that are there. */
  lemma OutputBufferShown(args: SyscallArgs, index: nat, result: int, mem: Memory)
    requires ArgInBounds(args, index, OutputBytes) && result < TWO63
    ensures var text, value, size := ArgText(args, index, OutputBytes, result, mem), args.arg[index], args.arg[index + 1];
            if result < 0 then text == Hex(value)
            else ShowsBytes(text, mem, value, if result < size then result else size)
  {
    hide ShowsBytes, BytesText;
    if result >= 0 {
      BytesShown(mem, args.arg[index], Min(result, args.arg[index + 1]));
    }
  }

  /** The other pointer arguments: a buffer of the length in the next argument, a string
      and a vector in the caller's pointer width, whatever the result. */
  lemma PointerArgsShown(args: SyscallArgs, index: nat, result: int, mem: Memory, ps: seq<u64>)
    requires ArgInBounds(args, index, Str) && result < TWO63
    ensures index < 5 ==> ShowsBytes(ArgText(args, index, InputBytes, result, mem), mem, args.arg[index], args.arg[index + 1])
    ensures ShowsString(ArgText(args, index, Str, result, mem), mem, args.arg[index])
    ensures Vector(mem, args.arg[index], args.compat, ps) ==>
              ShowsVector(ArgText(args, index, VStr, result, mem), mem, args.arg[index], args.compat, ps)
  {
    hide ShowsBytes, BytesText, ShowsString, StringText, ShowsVector, ArgvText, Vector, Slots;
    if index < 5 {
      BytesShown(mem, args.arg[index], args.arg[index + 1]);
    }
    StringShown(mem, args.arg[index]);
    if Vector(mem, args.arg[index], args.compat, ps) {
      VectorShown(mem, args.arg[index], args.compat, ps);
    }
  }

  /** The memory that each kind of argument reads. */
  lemma ArgReadsAre(args: SyscallArgs, index: nat, kind: ArgType, result: int, mem: Memory)
    requires ArgInBounds(args, index, kind) && result < TWO63
    ensures var made, value := ArgReads(args, index, kind, result, mem), args.arg[index];
            if kind.InputBytes? then
              var size := args.arg[index + 1];
              made == if size == 0 then [] else [Read(value, if size < 64 then size else 64)]
            else if kind.OutputBytes? then
              var size := if result < args.arg[index + 1] then result else args.arg[index + 1];
              made == if result < 0 || size == 0 then [] else [Read(value, if size < 64 then size else 64)]
            else if kind.Str? then made == [Read(value, 4096)]
            else if kind.VStr? then made == ArgvReads(value, args.compat, Slots(mem, value, args.compat))
            else made == []
  {
    hide Slots, ArgvReads;
  }

  // ------------------------------------------------------- the two-part record

  /** The texts of arguments `lo` to `hi - 1`. */
  function ArgTexts(args: SyscallArgs, row: Row, lo: nat, hi: nat, result: int, mem: Memory): (r: seq<string>)
    requires args.Valid() && row.WellFormed() && lo <= hi <= row.argCount && result < TWO63
    ensures |r| == hi - lo
  {
    if lo == hi then []
    else ArgTexts(args, row, lo, hi - 1, result, mem) + [ArgText(args, hi - 1, row.argType[hi - 1], result, mem)]
  }

  function ArgsReads(args: SyscallArgs, row: Row, lo: nat, hi: nat, result: int, mem: Memory): seq<Read>
    requires args.Valid() && row.WellFormed() && lo <= hi <= row.argCount && result < TWO63
  {
    if lo == hi then []
    else ArgsReads(args, row, lo, hi - 1, result, mem) + ArgReads(args, hi - 1, row.argType[hi - 1], result, mem)
  }

  /** Each text is that of its argument, by its own type. */
  lemma {:induction false} ArgTextsAt(args: SyscallArgs, row: Row, lo: nat, hi: nat, result: int, mem: Memory, i: nat)
    requires args.Valid() && row.WellFormed() && lo <= i < hi <= row.argCount && result < TWO63
    ensures ArgTexts(args, row, lo, hi, result, mem)[i - lo] == ArgText(args, i, row.argType[i], result, mem)
    decreases hi
  {
    hide ArgText;
    if i < hi - 1 {
      ArgTextsAt(args, row, lo, hi - 1, result, mem, i);
    }
  }

  function UnknownText(args: SyscallArgs): string {
    "syscall_" + Dec(args.origAx) + "(/* unknown */)"
  }

  /** What stands in the transcript after the entry stop. */
  function EntryText(args: SyscallArgs, row: Option<Row>, mem: Memory): string
    requires args.Valid() && (row.Some? ==> row.value.WellFormed())
  {
    match row
    case Absent => UnknownText(args)
    case Some(r) =>
      var f := r.FirstOutput();
      r.name + "(" + Join(", ", ArgTexts(args, r, 0, f, 0, mem)) + if f == r.argCount then ")" else ""
  }

  /** What the exit stop adds when printing resumes at argument `from`. */
  function FinishText(args: SyscallArgs, row: Option<Row>, from: nat, result: int, mem: Memory): string
    requires args.Valid() && (row.Some? ==> row.value.WellFormed() && from <= row.value.argCount) && result < TWO63
  {
    if row.Absent? || from == row.value.argCount then ""
    else Commas(from, ArgTexts(args, row.value, from, row.value.argCount, result, mem)) + ")"
  }

  function Commas(from: nat, texts: seq<string>): string {
    (if from > 0 && texts != [] then ", " else "") + Join(", ", texts)
  }

  function ResumeAt(row: Option<Row>): nat
    requires row.Some? ==> row.value.WellFormed()
  {
    if row.Some? then row.value.FirstOutput() else 0
  }

  /** The record as one line: every declared argument once, in order, those before
      the first kernel-filled buffer from the entry memory and the others, with
      the result known, from the exit memory. */
  function CallText(args: SyscallArgs, row: Option<Row>, result: int, entry: Memory, exit: Memory): string
    requires args.Valid() && (row.Some? ==> row.value.WellFormed()) && result < TWO63
  {
    match row
    case Absent => UnknownText(args)
    case Some(r) =>
      var f := r.FirstOutput();
      r.name + "("
      + Join(", ", ArgTexts(args, r, 0, f, 0, entry) + ArgTexts(args, r, f, r.argCount, result, exit)) + ")"
  }

  /** The two parts make up the record, for every row, register set, result and
      pair of memory snapshots. */
  lemma SplitRecord(args: SyscallArgs, row: Option<Row>, result: int, entry: Memory, exit: Memory)
    requires args.Valid() && (row.Some? ==> row.value.WellFormed()) && result < TWO63
    ensures EntryText(args, row, entry) + FinishText(args, row, ResumeAt(row), result, exit)
         == CallText(args, row, result, entry, exit)
  {
    if row.Some? {
      var r := row.value;
      var f := r.FirstOutput();
      SplitLine(r.name + "(", ArgTexts(args, r, 0, f, 0, entry), ArgTexts(args, r, f, r.argCount, result, exit));
    }
  }

  /** The record, argument by argument: each text is that of its own argument and type,
      with the entry memory before the first kernel-filled buffer, and with the result
      and the exit memory from there on. */
  lemma RecordText(args: SyscallArgs, r: Row, result: int, entry: Memory, exit: Memory) returns (texts: seq<string>)
    requires args.Valid() && r.WellFormed() && result < TWO63
    ensures CallText(args, Some(r), result, entry, exit) == r.name + "(" + Join(", ", texts) + ")"
    ensures |texts| == r.argCount
    ensures forall i :: 0 <= i < r.argCount ==>
              texts[i] == if i < r.FirstOutput() then ArgText(args, i, r.argType[i], 0, entry)
                          else ArgText(args, i, r.argType[i], result, exit)
  {
    hide ArgText, Join, ArgTexts;
    var f := r.FirstOutput();
    var head, tail := ArgTexts(args, r, 0, f, 0, entry), ArgTexts(args, r, f, r.argCount, result, exit);
    texts := head + tail;
    forall i | 0 <= i < r.argCount
      ensures texts[i] == if i < f then ArgText(args, i, r.argType[i], 0, entry) else ArgText(args, i, r.argType[i], result, exit)
    {
      if i < f {
        ArgTextsAt(args, r, 0, f, 0, entry, i);
      } else {
        ArgTextsAt(args, r, f, r.argCount, result, exit, i);
      }
    }
  }

  lemma SplitLine(lead: string, head: seq<string>, tail: seq<string>)
    ensures (lead + Join(", ", head) + if tail == [] then ")" else "")
            + (if tail == [] then "" else Commas(|head|, tail) + ")")
         == lead + Join(", ", head + tail) + ")"
  {
    if tail == [] {
      assert head + tail == head;
    } else if head == [] {
      assert head + tail == tail;
    } else {
      JoinAppend(", ", head, tail);
    }
  }

  lemma CommasNone(from: nat)
    ensures Commas(from, []) == "" && forall texts :: Commas(0, texts) == Join(", ", texts)
  {
  }

  /** One more argument on a line that so far holds `texts` from index `from` on. */
  lemma NextOnLine(start: string, from: nat, texts: seq<string>, text: string)
    ensures start + Commas(from, texts) + (if from + |texts| > 0 then ", " else "") + text
         == start + Commas(from, texts + [text])
  {
    JoinSnoc(", ", texts, text);
  }

  /** A printer that sees the finished call at once. */
  function OneShotText(args: SyscallArgs, row: Option<Row>, result: int, mem: Memory): string
    requires args.Valid() && (row.Some? ==> row.value.WellFormed()) && result < TWO63
  {
    match row
    case Absent => UnknownText(args)
    case Some(r) => r.name + "(" + Join(", ", ArgTexts(args, r, 0, r.argCount, result, mem)) + ")"
  }

  /** If memory did not change during the call, splitting it is invisible. */
  lemma SplitIsInvisible(args: SyscallArgs, row: Option<Row>, result: int, mem: Memory)
    requires args.Valid() && (row.Some? ==> row.value.WellFormed()) && result < TWO63
    ensures EntryText(args, row, mem) + FinishText(args, row, ResumeAt(row), result, mem)
         == OneShotText(args, row, result, mem)
  {
    SplitRecord(args, row, result, mem, mem);
    if row.Some? {
      var r := row.value;
      var f := r.FirstOutput();
      ResultIrrelevant(args, r, f, result, mem);
      ArgTextsAppend(args, r, f, r.argCount, result, mem);
    }
  }

  /** Before the first kernel-filled buffer the result is of no account. */
  lemma {:induction false} ResultIrrelevant(args: SyscallArgs, r: Row, hi: nat, result: int, mem: Memory)
    requires args.Valid() && r.WellFormed() && result < TWO63 && hi <= r.FirstOutput()
    ensures ArgTexts(args, r, 0, hi, 0, mem) == ArgTexts(args, r, 0, hi, result, mem)
  {
    if hi > 0 {
      ResultIrrelevant(args, r, hi - 1, result, mem);
    }
  }

  lemma {:induction false} ArgTextsAppend(args: SyscallArgs, r: Row, mid: nat, hi: nat, result: int, mem: Memory)
    requires args.Valid() && r.WellFormed() && result < TWO63 && mid <= hi <= r.argCount
    ensures ArgTexts(args, r, 0, mid, result, mem) + ArgTexts(args, r, mid, hi, result, mem)
         == ArgTexts(args, r, 0, hi, result, mem)
    decreases hi
  {
    hide ArgText;
    if mid == hi {
      assert ArgTexts(args, r, 0, mid, result, mem) + [] == ArgTexts(args, r, 0, mid, result, mem);
    } else {
      ArgTextsAppend(args, r, mid, hi - 1, result, mem);
    }
  }

  // ------------------------------------------------------ struct pending_call

  class PendingCall {
    var entry: SyscallArgs
    var syscall: Option<Row>
    var nextArg: nat

    constructor (entry: SyscallArgs)
      ensures this.entry == entry && syscall == Absent && nextArg == 0
    {
      this.entry, syscall, nextArg := entry, Absent, 0;
    }

    predicate Valid()
      reads this
    {
      entry.Valid() && (syscall.Some? ==> syscall.value.WellFormed() && nextArg <= syscall.value.argCount)
    }
  }

  method PrintEntry(err: Stderr, p: Process, call: PendingCall, tables: Tables)
    requires call.entry.Valid() && tables.WellFormed()
    modifies err, p`readLog, call`syscall, call`nextArg
    ensures call.Valid()
    ensures call.syscall == LookupSyscall(call.entry, tables) && call.nextArg == ResumeAt(call.syscall)
    ensures err.text == old(err.text) + EntryText(call.entry, call.syscall, p.mem)
    ensures p.readLog == old(p.readLog) + EntryReads(call.entry, call.syscall, p.mem)
  {
    hide ArgText, ArgReads, LookupSyscall, TableFor, Commas, Join;
    call.syscall := LookupSyscall(call.entry, tables);
    call.nextArg := 0;
    if call.syscall.Absent? {
      err.Fputs("syscall_" + Dec(call.entry.origAx) + "(/* unknown */)");
      return;
    }
    var row := call.syscall.value;
    ghost var start, log, mem, f := old(err.text) + (row.name + "("), p.readLog, p.mem, row.FirstOutput();
    CommasNone(0);
    err.Fputs(row.name + "(");
    while call.nextArg < row.argCount
      invariant call.syscall == Some(row) && call.nextArg <= f
      invariant err.text == start + Commas(0, ArgTexts(call.entry, row, 0, call.nextArg, 0, mem))
      invariant p.readLog == log + ArgsReads(call.entry, row, 0, call.nextArg, 0, mem)
      decreases row.argCount - call.nextArg
    {
      var i := call.nextArg;
      if row.argType[i].OutputBytes? {
        return;
      }
      if i > 0 {
        err.Fputs(", ");
      }
      PrintArg(err, p, call.entry, i, row.argType[i], 0);
      NextOnLine(start, 0, ArgTexts(call.entry, row, 0, i, 0, mem), ArgText(call.entry, i, row.argType[i], 0, mem));
      Assoc(log, ArgsReads(call.entry, row, 0, i, 0, mem), ArgReads(call.entry, i, row.argType[i], 0, mem));
      call.nextArg := i + 1;
    }
    err.Fputc(')');
  }

  function EntryReads(args: SyscallArgs, row: Option<Row>, mem: Memory): seq<Read>
    requires args.Valid() && (row.Some? ==> row.value.WellFormed())
  {
    if row.Absent? then [] else ArgsReads(args, row.value, 0, row.value.FirstOutput(), 0, mem)
  }

  function FinishReads(args: SyscallArgs, row: Option<Row>, from: nat, result: int, mem: Memory): seq<Read>
    requires args.Valid() && (row.Some? ==> row.value.WellFormed() && from <= row.value.argCount) && result < TWO63
  {
    if row.Absent? then [] else ArgsReads(args, row.value, from, row.value.argCount, result, mem)
  }

  method FinishArgs(err: Stderr, p: Process, call: PendingCall, result: int)
    requires call.Valid() && result < TWO63
    modifies err, p`readLog
    ensures err.text == old(err.text) + FinishText(call.entry, call.syscall, call.nextArg, result, p.mem)
    ensures p.readLog == old(p.readLog) + FinishReads(call.entry, call.syscall, call.nextArg, result, p.mem)
  {
    hide ArgText, ArgReads;
    if call.syscall.Absent? || call.nextArg == call.syscall.value.argCount {
      return;
    }
    hide Commas;
    var args, row, from := call.entry, call.syscall.value, call.nextArg;
    ghost var start, log, mem := err.text, p.readLog, p.mem;
    CommasNone(from);
    for i := from to row.argCount
      invariant err.text == start + Commas(from, ArgTexts(args, row, from, i, result, mem))
      invariant p.readLog == log + ArgsReads(args, row, from, i, result, mem)
    {
      if i > 0 {
        err.Fputs(", ");
      }
      PrintArg(err, p, args, i, row.argType[i], result);
      NextOnLine(start, from, ArgTexts(args, row, from, i, result, mem), ArgText(args, i, row.argType[i], result, mem));
      Assoc(log, ArgsReads(args, row, from, i, result, mem), ArgReads(args, i, row.argType[i], result, mem));
    }
    err.Fputc(')');
  }

  // ------------------------------------------------------------ memory reads

  /** What each argument read at the entry stop was: no kernel-filled buffer is
      among them, and they are exactly the arguments before the first one. */
  lemma {:induction false} NoOutputReadAtEntry(args: SyscallArgs, row: Row, n: nat, mem: Memory)
    requires args.Valid() && row.WellFormed() && n <= row.FirstOutput()
    ensures forall i :: 0 <= i < n ==> !row.argType[i].OutputBytes?
    ensures ArgsReads(args, row, 0, n, 0, mem)
         == Concat(seq(n, (i: nat) requires i < n => ArgReads(args, i, row.argType[i], 0, mem)))
  {
    hide ArgReads;
    if n > 0 {
      NoOutputReadAtEntry(args, row, n - 1, mem);
      var front := seq(n - 1, (i: nat) requires i < n - 1 => ArgReads(args, i, row.argType[i], 0, mem));
      var all := seq(n, (i: nat) requires i < n => ArgReads(args, i, row.argType[i], 0, mem));
      assert all == front + [ArgReads(args, n - 1, row.argType[n - 1], 0, mem)];
      ConcatSnoc(front, ArgReads(args, n - 1, row.argType[n - 1], 0, mem));
    }
  }

  /** Argument `i` needs no tracee memory when the call has failed. */
  predicate Quiet(args: SyscallArgs, row: Row, i: nat)
    requires args.Valid() && row.WellFormed() && i < row.argCount
  {
    row.argType[i].IsScalar() || row.argType[i].OutputBytes? || (row.argType[i].InputBytes? && args.arg[i + 1] == 0)
  }

  lemma ArgvReadsSomething(address: u64, compat: bool, slots: seq<Slot>)
    requires slots != []
    ensures ArgvReads(address, compat, slots) != []
  {
    var n := ElementCount(slots);
    if n == |slots| {
      assert slots[..n] != [];
    }
  }

  lemma QuietArg(args: SyscallArgs, row: Row, i: nat, result: int, mem: Memory)
    requires args.Valid() && row.WellFormed() && i < row.argCount && result < 0
    ensures ArgReads(args, i, row.argType[i], result, mem) == [] <==> Quiet(args, row, i)
  {
    if row.argType[i].VStr? {
      ArgvReadsSomething(args.arg[i], args.compat, Slots(mem, args.arg[i], args.compat));
    }
  }

  /** Completing a record whose call failed, or whose caller died inside it, reads
      nothing exactly when every argument left is quiet. */
  lemma {:induction false} FailedCallReads(args: SyscallArgs, row: Row, lo: nat, hi: nat, result: int, mem: Memory)
    requires args.Valid() && row.WellFormed() && lo <= hi <= row.argCount && result < 0
    ensures ArgsReads(args, row, lo, hi, result, mem) == [] <==> forall i :: lo <= i < hi ==> Quiet(args, row, i)
    decreases hi
  {
    hide Quiet, ArgReads, ArgsReads;
    ArgsReadsLast(args, row, lo, hi, result, mem);
    if hi > lo {
      FailedCallReads(args, row, lo, hi - 1, result, mem);
      QuietArg(args, row, hi - 1, result, mem);
    }
  }

  lemma ArgsReadsLast(args: SyscallArgs, row: Row, lo: nat, hi: nat, result: int, mem: Memory)
    requires args.Valid() && row.WellFormed() && lo <= hi <= row.argCount && result < TWO63
    ensures ArgsReads(args, row, lo, hi, result, mem) == []
       <==> (lo < hi ==>
              ArgsReads(args, row, lo, hi - 1, result, mem) == [] == ArgReads(args, hi - 1, row.argType[hi - 1], result, mem))
  {
    hide ArgReads;
  }

  /** In a row with only scalars after its first kernel-filled buffer, as in both
      tables, nothing is read. */
  lemma FailedCallReadsNothing(args: SyscallArgs, row: Option<Row>, result: int, mem: Memory)
    requires args.Valid() && (row.Some? ==> row.value.ScalarTail()) && result < 0
    ensures FinishReads(args, row, ResumeAt(row), result, mem) == []
  {
    if row.Some? {
      FailedCallReads(args, row.value, ResumeAt(row), row.value.argCount, result, mem);
    }
  }

  // --------------------------------------------------------------- an example

  /** A read: whatever its buffer held at the entry stop, the record shows what is
      there at the exit stop. */
  lemma ReadRecord(args: SyscallArgs, result: int, entry: Memory, exit: Memory)
    requires args.Valid() && result < TWO63
    ensures READ.WellFormed()
    ensures CallText(args, Some(READ), result, entry, exit)
         == "read(" + SignedDec(Int32(args.arg[0])) + ", " + ArgText(args, 1, OutputBytes, result, exit)
            + ", " + Dec(args.arg[2]) + ")"
  {
    hide ArgText, EntryText, Dec;
    SampleRows();
    var fd, buffer := ArgText(args, 0, Fd, 0, entry), ArgText(args, 1, OutputBytes, result, exit);
    var size := ArgText(args, 2, Size, result, exit);
    assert fd == SignedDec(Int32(args.arg[0])) && size == Dec(args.arg[2]) by { ScalarTexts(args, result, entry, exit); }
    OneMore(args, READ, 0, 0, 0, entry);
    OneMore(args, READ, 1, 1, result, exit);
    OneMore(args, READ, 1, 2, result, exit);
    assert ArgTexts(args, READ, 0, 1, 0, entry) + ArgTexts(args, READ, 1, 3, result, exit) == [fd, buffer, size];
    ThreeJoined(fd, buffer, size);
  }

  lemma ScalarTexts(args: SyscallArgs, result: int, entry: Memory, exit: Memory)
    requires args.Valid() && result < TWO63
    ensures ArgText(args, 0, Fd, 0, entry) == SignedDec(Int32(args.arg[0]))
    ensures ArgText(args, 2, Size, result, exit) == Dec(args.arg[2])
  {
  }

  lemma OneMore(args: SyscallArgs, row: Row, lo: nat, hi: nat, result: int, mem: Memory)
    requires args.Valid() && row.WellFormed() && lo <= hi < row.argCount && result < TWO63
    ensures ArgTexts(args, row, lo, hi + 1, result, mem)
         == (if lo == hi then [] else ArgTexts(args, row, lo, hi, result, mem))
            + [ArgText(args, hi, row.argType[hi], result, mem)]
  {
    hide ArgText;
  }

  lemma ThreeJoined(a: string, b: string, c: string)
    ensures Join(", ", [a, b, c]) == a + ", " + b + ", " + c
  {
    JoinSnoc(", ", [a, b], c);
    JoinSnoc(", ", [a], b);
    assert [a, b] + [c] == [a, b, c] && [a] + [b] == [a, b];
  }
}
