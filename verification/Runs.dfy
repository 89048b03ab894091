/** Whole runs of the tracer: the state machine's transcript against a
    specification that looks ahead and prints one record per call. */
module Runs {
  import opened Numerals
  import opened Tracee
  import opened SyscallTable
  import opened CallPrinter
  import opened TraceLoop
  import opened Text
  import opened Wrappers

  // --------------------------------------------------- one record per call

  /** How far away the next syscall stop or the end of the run is. */
  function Boundary(events: seq<Event>): (j: nat)
    ensures j <= |events|
    ensures forall i :: 0 <= i < j ==> !KindOf(events[i]).Syscall? && !KindOf(events[i]).Last()
    ensures j < |events| ==> KindOf(events[j]).Syscall? || KindOf(events[j]).Last()
  {
    if events == [] || KindOf(events[0]).Syscall? || KindOf(events[0]).Last() then 0
    else 1 + Boundary(events[1..])
  }

  function SignalLines(env: Env, events: seq<Event>): seq<Piece>
  {
    if events == [] then []
    else
      (match KindOf(events[0])
       case Delivery(sig, info) => [SignalLine(SignalText(sig, info, env.libc))]
       case _ => [])
      + SignalLines(env, events[1..])
  }

  /** What closes the record of a call entered with `entry`. */
  function Completion(env: Env, entry: SyscallArgs, end: Kind): seq<Piece>
    requires env.Valid() && entry.Valid()
  {
    match end
    case Syscall(exit, mem) => [ReturnTail(env, entry, exit, mem)] + ModeLines(env, entry.compat, exit.compat)
    case Ended(mem) => [DeathTail(env, entry, mem)]
    case _ => []
  }

  /** The transcript as a reader expects it: signals where they arrive, and at each
      entry the whole call up to its exit, interrupted only by the signals that
      arrive inside it; a mode line stands before a call or after its result. */
  function PerCall(env: Env, abi: bool, events: seq<Event>): seq<Piece>
    requires env.Valid()
    decreases |events|
  {
    if events == [] then []
    else
      var rest := events[1..];
      match KindOf(events[0])
      case Syscall(entry, mem) =>
        var j := Boundary(rest);
        ModeLines(env, abi, entry.compat) + [HeadOf(env, entry, mem)] + SignalLines(env, rest[..j])
        + (if j == |rest| then [] else Completion(env, entry, KindOf(rest[j])) + AfterCall(env, rest, j))
      case Delivery(sig, info) => [SignalLine(SignalText(sig, info, env.libc))] + PerCall(env, abi, rest)
      case Ignored => PerCall(env, abi, rest)
      case _ => []
  }

  function AfterCall(env: Env, rest: seq<Event>, j: nat): seq<Piece>
    requires env.Valid() && j < |rest|
    decreases |rest|, 0
  {
    match KindOf(rest[j])
    case Syscall(exit, _) => PerCall(env, exit.compat, rest[j + 1..])
    case _ => []
  }

  /** The machine's own transcript after the boundary. */
  function Resumed(env: Env, events: seq<Event>, j: nat): seq<Piece>
    requires env.Valid() && j < |events|
  {
    match KindOf(events[j])
    case Syscall(exit, _) => Transcript(env, State(Absent, exit.compat), events[j + 1..])
    case _ => []
  }

  lemma AtBoundary(env: Env, entry: SyscallArgs, events: seq<Event>)
    requires env.Valid() && entry.Valid() && events != []
    requires KindOf(events[0]).Syscall? || KindOf(events[0]).Last()
    ensures Transcript(env, State(Some(entry), entry.compat), events)
         == Completion(env, entry, KindOf(events[0])) + Resumed(env, events, 0)
  {
    hide KindOf, ReturnTail, DeathTail, ModeLines;
  }

  /** Inside a call the machine prints the signals up to the boundary, and there
      completes the call. */
  lemma {:induction false} InsideCall(env: Env, entry: SyscallArgs, events: seq<Event>)
    requires env.Valid() && entry.Valid()
    ensures Transcript(env, State(Some(entry), entry.compat), events)
         == SignalLines(env, events[..Boundary(events)])
            + (if Boundary(events) == |events| then []
               else Completion(env, entry, KindOf(events[Boundary(events)])) + Resumed(env, events, Boundary(events)))
    decreases |events|
  {
    hide KindOf, Completion, SignalText, HeadOf, ReturnTail, DeathTail, ModeLines;
    var j := Boundary(events);
    if events == [] {
    } else if j == 0 {
      AtBoundary(env, entry, events);
      assert events[..0] == [];
    } else {
      var k, rest := KindOf(events[0]), events[1..];
      InsideCall(env, entry, rest);
      assert events[..j][0] == events[0] && events[..j][1..] == rest[..j - 1];
      if j < |events| {
        assert rest[j - 1] == events[j] && rest[j..] == events[j + 1..];
      }
      var after := if j == |events| then [] else Completion(env, entry, KindOf(events[j])) + Resumed(env, events, j);
      Assoc(Step(env, State(Some(entry), entry.compat), k), SignalLines(env, rest[..j - 1]), after);
    }
  }

  /** For every run, whatever state of the ABI it starts in, the stateful loop
      prints the per-call transcript. */
  lemma {:induction false} TranscriptIsPerCall(env: Env, abi: bool, events: seq<Event>)
    requires env.Valid()
    ensures Transcript(env, State(Absent, abi), events) == PerCall(env, abi, events)
    decreases |events|
  {
    hide KindOf, Completion, SignalText, HeadOf, ReturnTail, DeathTail, ModeLines, Boundary, SignalLines;
    if events != [] {
      var k, rest := KindOf(events[0]), events[1..];
      if k.Syscall? {
        var j := Boundary(rest);
        InsideCall(env, k.regs, rest);
        if j < |rest| && KindOf(rest[j]).Syscall? {
          TranscriptIsPerCall(env, KindOf(rest[j]).regs.compat, rest[j + 1..]);
        }
        var after := if j == |rest| then [] else Completion(env, k.regs, KindOf(rest[j])) + Resumed(env, rest, j);
        Assoc(ModeLines(env, abi, k.regs.compat) + [HeadOf(env, k.regs, k.mem)], SignalLines(env, rest[..j]), after);
      } else if !k.Last() {
        TranscriptIsPerCall(env, abi, rest);
      }
    }
  }

  // ----------------------------------------------- each call exactly one record

  /** The line a finished call contributes. */
  function RecordLine(env: Env, entry: SyscallArgs, mem: Memory, end: Kind): string
    requires env.Valid() && entry.Valid() && (end.Syscall? || end.Ended?)
  {
    if end.Syscall? then
      CallText(entry, RowOf(env, entry), ResultOf(end.regs), mem, end.mem) + ResultText(end.regs, env.libc)
    else
      CallText(entry, RowOf(env, entry), -1, mem, end.mem) + " = ?\n"
  }

  function TailFor(env: Env, entry: SyscallArgs, end: Kind): Piece
    requires env.Valid() && entry.Valid() && (end.Syscall? || end.Ended?)
  {
    if end.Syscall? then ReturnTail(env, entry, end.regs, end.mem) else DeathTail(env, entry, end.mem)
  }

  lemma HeadAndTail(env: Env, entry: SyscallArgs, mem: Memory, end: Kind)
    requires env.Valid() && entry.Valid() && (end.Syscall? || end.Ended?)
    ensures HeadOf(env, entry, mem).text + TailFor(env, entry, end).text == RecordLine(env, entry, mem, end)
  {
    hide EntryText, FinishText, CallText, ResultText, ResultOf, LookupSyscall, TableFor;
    var row, result := RowOf(env, entry), if end.Syscall? then ResultOf(end.regs) else -1;
    SplitRecord(entry, row, result, mem, end.mem);
    Assoc(EntryText(entry, row, mem), FinishText(entry, row, ResumeAt(row), result, end.mem),
          if end.Syscall? then ResultText(end.regs, env.libc) else " = ?\n");
  }

  /** The syscall stops and the tracee's end, in order, as far as the run goes. */
  function Stops(events: seq<Event>): (r: seq<Kind>)
    ensures AreStops(r)
  {
    if events == [] then []
    else
      var k := KindOf(events[0]);
      if k.Ended? then [k] else if k.Last() then [] else (if k.Syscall? then [k] else []) + Stops(events[1..])
  }

  datatype Call = Call(entry: SyscallArgs, mem: Memory, end: Option<Kind>) {
    predicate Valid() {
      entry.Valid() && (end.Some? ==> end.value.Syscall? || end.value.Ended?)
    }
  }

  ghost predicate AreStops(stops: seq<Kind>) {
    forall i :: 0 <= i < |stops| ==> (stops[i].Syscall? && stops[i].regs.Valid()) || stops[i].Ended?
  }

  /** The calls of a run: its stops taken two by two. */
  function Calls(stops: seq<Kind>): (calls: seq<Call>)
    requires AreStops(stops)
    ensures forall i :: 0 <= i < |calls| ==> calls[i].Valid()
    decreases |stops|
  {
    if stops == [] || stops[0].Ended? then []
    else
      var rest := stops[1..];
      [Call(stops[0].regs, stops[0].mem, if rest == [] then Absent else Some(rest[0]))]
      + if rest == [] || rest[0].Ended? then [] else Calls(rest[1..])
  }

  function PiecesOf(env: Env, calls: seq<Call>): seq<Piece>
    requires env.Valid() && forall i :: 0 <= i < |calls| ==> calls[i].Valid()
  {
    if calls == [] then []
    else
      var c := calls[0];
      assert c.Valid();
      [HeadOf(env, c.entry, c.mem)] + (if c.end.Some? then [TailFor(env, c.entry, c.end.value)] else [])
      + PiecesOf(env, calls[1..])
  }

  function OfCalls(pieces: seq<Piece>): seq<Piece> {
    if pieces == [] then []
    else (if pieces[0].OfCall() then [pieces[0]] else []) + OfCalls(pieces[1..])
  }

  lemma {:induction false} OfCallsAppend(a: seq<Piece>, b: seq<Piece>)
    ensures OfCalls(a + b) == OfCalls(a) + OfCalls(b)
  {
    if a == [] {
      assert a + b == b;
    } else {
      var first := if a[0].OfCall() then [a[0]] else [];
      OfCallsAppend(a[1..], b);
      assert (a + b)[1..] == a[1..] + b && (a + b)[0] == a[0];
      assert OfCalls(a + b) == first + OfCalls(a[1..] + b);
      Assoc(first, OfCalls(a[1..]), OfCalls(b));
    }
  }

  /** The call pieces still to come when the machine stands in `st`. */
  function Pieces(env: Env, st: State, stops: seq<Kind>): seq<Piece>
    requires env.Valid() && st.Valid() && AreStops(stops)
  {
    if st.inCall.Absent? then PiecesOf(env, Calls(stops))
    else if stops == [] then []
    else [TailFor(env, st.inCall.value, stops[0])]
         + if stops[0].Ended? then [] else PiecesOf(env, Calls(stops[1..]))
  }

  lemma OfCallsStep(env: Env, st: State, k: Kind)
    requires env.Valid() && st.Valid() && (k.Syscall? ==> k.regs.Valid())
    ensures OfCalls(Step(env, st, k))
         == if k.Ended? && st.inCall.Some? then [DeathTail(env, st.inCall.value, k.mem)]
            else if k.Syscall? && st.inCall.Some? then [ReturnTail(env, st.inCall.value, k.regs, k.mem)]
            else if k.Syscall? then [HeadOf(env, k.regs, k.mem)]
            else []
  {
    hide EntryText, FinishText, SignalText, ModeText, LookupSyscall, TableFor, ResultOf;
    if k.Syscall? {
      OfCallsAppend([HeadOf(env, k.regs, k.mem)], []);
      var modes := ModeLines(env, st.abi, k.regs.compat);
      assert OfCalls(modes) == [];
      if st.inCall.Some? {
        OfCallsAppend([ReturnTail(env, st.inCall.value, k.regs, k.mem)], modes);
      } else {
        OfCallsAppend(modes, [HeadOf(env, k.regs, k.mem)]);
      }
    }
  }

  lemma FirstCall(env: Env, entry: SyscallArgs, mem: Memory, stops: seq<Kind>)
    requires env.Valid() && entry.Valid() && AreStops(stops)
    ensures var all := [Syscall(entry, mem)] + stops;
            && AreStops(all)
            && PiecesOf(env, Calls(all)) == [HeadOf(env, entry, mem)] + Pieces(env, State(Some(entry), entry.compat), stops)
  {
    hide HeadOf, TailFor;
    var all := [Syscall(entry, mem)] + stops;
    assert all[1..] == stops;
    var c := Call(entry, mem, if stops == [] then Absent else Some(stops[0]));
    var later := if stops == [] || stops[0].Ended? then [] else Calls(stops[1..]);
    assert Calls(all) == [c] + later && ([c] + later)[1..] == later;
  }

  /** Without its signal and mode lines, the transcript is the calls' heads and
      tails, call by call. */
  lemma {:induction false} TranscriptCalls(env: Env, st: State, events: seq<Event>)
    requires env.Valid() && st.Valid()
    ensures OfCalls(Transcript(env, st, events)) == Pieces(env, st, Stops(events))
    decreases |events|
  {
    hide KindOf, HeadOf, ReturnTail, DeathTail, Step;
    if events != [] {
      var k, rest := KindOf(events[0]), events[1..];
      OfCallsStep(env, st, k);
      OfCallsAppend(Step(env, st, k), Transcript(env, Next(st, k), rest));
      if !k.Last() {
        TranscriptCalls(env, Next(st, k), rest);
        if k.Syscall? {
          FirstCall(env, k.regs, k.mem, Stops(rest));
          assert ([k] + Stops(rest))[1..] == Stops(rest);
        } else {
          assert OfCalls(Step(env, st, k)) == [] && Stops(events) == [] + Stops(rest) == Stops(rest);
        }
      } else {
        assert Step(env, st, k) + [] == Step(env, st, k);
      }
    }
  }

  ghost predicate Closed(calls: seq<Call>) {
    forall i :: 0 <= i < |calls| ==> calls[i].Valid() && calls[i].end.Some?
  }

  /** Only the last call of a run can be left without its end, and none is when the
      tracee has terminated. */
  lemma {:induction false} CallsClosed(stops: seq<Kind>)
    requires AreStops(stops)
    ensures Calls(stops) != [] ==> Closed(Calls(stops)[..|Calls(stops)| - 1])
    ensures stops != [] && stops[|stops| - 1].Ended? ==> Closed(Calls(stops))
    decreases |stops|
  {
    if |stops| >= 2 && stops[0].Syscall? && stops[1].Syscall? {
      var c, later := Call(stops[0].regs, stops[0].mem, Some(stops[1])), Calls(stops[2..]);
      assert stops[1..][1..] == stops[2..];
      assert Calls(stops) == [c] + later;
      CallsClosed(stops[2..]);
      if later != [] {
        assert Calls(stops)[..|later|] == [c] + later[..|later| - 1];
      }
    }
  }

  lemma {:induction false} FinishedEndsStops(events: seq<Event>)
    requires OutcomeOf(events) == Finished
    ensures var stops := Stops(events); stops != [] && stops[|stops| - 1].Ended?
    decreases |events|
  {
    hide KindOf;
    if !KindOf(events[0]).Last() {
      FinishedEndsStops(events[1..]);
    }
  }

  /** One line per call. */
  function RecordLines(env: Env, calls: seq<Call>): string
    requires env.Valid() && Closed(calls)
  {
    if calls == [] then ""
    else
      assert calls[0].Valid() && calls[0].end.Some?;
      RecordLine(env, calls[0].entry, calls[0].mem, calls[0].end.value) + RecordLines(env, calls[1..])
  }

  lemma {:induction false} PiecesRender(env: Env, calls: seq<Call>)
    requires env.Valid() && Closed(calls)
    ensures Render(PiecesOf(env, calls)) == RecordLines(env, calls)
  {
    hide HeadOf, TailFor, RecordLine;
    if calls != [] {
      var c, rest := calls[0], calls[1..];
      assert c.Valid() && c.end.Some?;
      var head, tail := HeadOf(env, c.entry, c.mem), TailFor(env, c.entry, c.end.value);
      assert PiecesOf(env, calls) == [head, tail] + PiecesOf(env, rest);
      RenderAppend([head, tail], PiecesOf(env, rest));
      RenderSmall(head, tail);
      HeadAndTail(env, c.entry, c.mem, c.end.value);
      PiecesRender(env, rest);
    }
  }

  /** In every run that ends in tracee termination, each call has exactly one record
      with exactly one completion, and apart from signal and mode lines the
      transcript is these records in order. */
  lemma EveryCallOnce(env: Env, events: seq<Event>)
    requires env.Valid() && OutcomeOf(events) == Finished
    ensures Closed(Calls(Stops(events)))
    ensures Render(OfCalls(Transcript(env, START, events))) == RecordLines(env, Calls(Stops(events)))
  {
    hide Render, Transcript, PiecesOf, OutcomeOf, Stops, Calls, RecordLines, OfCalls;
    FinishedEndsStops(events);
    CallsClosed(Stops(events));
    assert Closed(Calls(Stops(events)));
    TranscriptCalls(env, START, events);
    PiecesRender(env, Calls(Stops(events)));
  }

  function StateAfter(st: State, events: seq<Event>): (after: State)
    requires st.Valid()
    ensures after.Valid()
    decreases |events|
  {
    if events == [] then st else StateAfter(Next(st, KindOf(events[0])), events[1..])
  }

  function SyscallStops(events: seq<Event>): nat {
    if events == [] then 0 else (if KindOf(events[0]).Syscall? then 1 else 0) + SyscallStops(events[1..])
  }

  /** Entries and exits alternate: the tracee is inside a call exactly after an odd
      number of syscall stops. */
  lemma {:induction false} InCallByParity(st: State, events: seq<Event>)
    requires st.Valid()
    ensures StateAfter(st, events).inCall.Some? <==> (SyscallStops(events) + if st.inCall.Some? then 1 else 0) % 2 == 1
    decreases |events|
  {
    hide KindOf;
    if events != [] {
      InCallByParity(Next(st, KindOf(events[0])), events[1..]);
    }
  }

  ghost predicate GoesOn(events: seq<Event>) {
    forall i :: 0 <= i < |events| ==> !KindOf(events[i]).Last()
  }

  /** The transcript of a run is that of its first part and, from the state it leads to,
      that of the rest. */
  lemma {:induction false} TranscriptSplit(env: Env, st: State, events: seq<Event>, i: nat)
    requires env.Valid() && st.Valid() && i <= |events| && GoesOn(events[..i])
    ensures Transcript(env, st, events)
         == Transcript(env, st, events[..i]) + Transcript(env, StateAfter(st, events[..i]), events[i..])
    decreases i
  {
    hide KindOf, Step;
    if i == 0 {
      assert events[..0] == [] && events[0..] == events;
    } else {
      var k, rest := KindOf(events[0]), events[1..];
      assert events[..i][0] == events[0] && events[..i][1..] == rest[..i - 1] && events[i..] == rest[i - 1..];
      TranscriptSplit(env, Next(st, k), rest, i - 1);
      Assoc(Step(env, st, k), Transcript(env, Next(st, k), rest[..i - 1]),
            Transcript(env, StateAfter(Next(st, k), rest[..i - 1]), rest[i - 1..]));
    }
  }

  /** A call is entered at event `i` and left, or not survived, at event `j`, and no
      signal arrives in between. */
  ghost predicate QuietCall(events: seq<Event>, i: nat, j: nat) {
    && i < j < |events| && GoesOn(events[..i])
    && SyscallStops(events[..i]) % 2 == 0 && KindOf(events[i]).Syscall?
    && (KindOf(events[j]).Syscall? || KindOf(events[j]).Ended?)
    && forall k :: i < k < j ==> KindOf(events[k]).Ignored?
  }

  lemma {:induction false} NoSignalLines(env: Env, events: seq<Event>)
    requires forall k :: 0 <= k < |events| ==> KindOf(events[k]).Ignored?
    ensures SignalLines(env, events) == []
  {
    hide KindOf;
    if events != [] {
      NoSignalLines(env, events[1..]);
    }
  }

  /** What follows the record of the call that ends at event `j`. */
  function LinesAfter(env: Env, events: seq<Event>, i: nat, j: nat): seq<Piece>
    requires env.Valid() && i < j < |events| && KindOf(events[i]).Syscall?
  {
    match KindOf(events[j])
    case Syscall(exit, _) =>
      ModeLines(env, KindOf(events[i]).regs.compat, exit.compat)
      + Transcript(env, State(Absent, exit.compat), events[j + 1..])
    case _ => []
  }

  /** The specification at a call whose end is known. */
  lemma PerCallAt(env: Env, abi: bool, events: seq<Event>, n: nat)
    requires env.Valid() && events != [] && KindOf(events[0]).Syscall? && Boundary(events[1..]) == n < |events| - 1
    ensures var entry, rest := KindOf(events[0]), events[1..];
            PerCall(env, abi, events)
            == ModeLines(env, abi, entry.regs.compat) + [HeadOf(env, entry.regs, entry.mem)] + SignalLines(env, rest[..n])
               + (Completion(env, entry.regs, KindOf(rest[n])) + AfterCall(env, rest, n))
  {
    hide KindOf, HeadOf, ModeLines, Boundary, SignalLines, Completion, AfterCall;
  }

  /** From the entry of such a call on. */
  lemma UnbrokenPieces(env: Env, abi: bool, events: seq<Event>, i: nat, j: nat)
    requires env.Valid() && QuietCall(events, i, j)
    ensures Transcript(env, State(Absent, abi), events[i..])
         == ModeLines(env, abi, KindOf(events[i]).regs.compat)
            + ([HeadOf(env, KindOf(events[i]).regs, KindOf(events[i]).mem),
                TailFor(env, KindOf(events[i]).regs, KindOf(events[j]))]
               + LinesAfter(env, events, i, j))
  {
    hide KindOf, HeadOf, ReturnTail, DeathTail, ModeLines, Transcript, Boundary, GoesOn, SyscallStops, SignalLines, PerCall;
    var now := events[i..];
    var rest, n := now[1..], j - i - 1;
    TranscriptIsPerCall(env, abi, now);
    assert rest[n] == events[j] && forall k :: 0 <= k < n ==> rest[k] == events[i + 1 + k];
    BoundaryIs(rest, n);
    NoSignalLines(env, rest[..n]);
    PerCallAt(env, abi, now, n);
    if KindOf(rest[n]).Syscall? {
      assert rest[n + 1..] == events[j + 1..];
      TranscriptIsPerCall(env, KindOf(rest[n]).regs.compat, events[j + 1..]);
    }
    var entry, end := KindOf(events[i]), KindOf(events[j]);
    var more := if end.Syscall? then ModeLines(env, entry.regs.compat, end.regs.compat) else [];
    Glue(ModeLines(env, abi, entry.regs.compat), HeadOf(env, entry.regs, entry.mem), TailFor(env, entry.regs, end),
         more, AfterCall(env, rest, n));
  }

  lemma Glue<T>(modes: seq<T>, head: T, tail: T, more: seq<T>, after: seq<T>)
    ensures modes + [head] + [] + ([tail] + more + after) == modes + ([head, tail] + (more + after))
    ensures [tail] + [] == [tail] && [] + after == after
  {
  }

  lemma BoundaryIs(events: seq<Event>, n: nat)
    requires n < |events| && (KindOf(events[n]).Syscall? || KindOf(events[n]).Last())
    requires forall k :: 0 <= k < n ==> KindOf(events[k]).Ignored?
    ensures Boundary(events) == n
  {
    hide KindOf, Boundary;
  }

  /** In every run, a call inside which no signal arrives is one unbroken line of the
      transcript: its record and completion, with nothing in between. */
  lemma UnbrokenRecord(env: Env, events: seq<Event>, i: nat, j: nat)
    requires env.Valid() && QuietCall(events, i, j)
    ensures var entry, before := KindOf(events[i]), events[..i];
            Render(Transcript(env, START, events))
            == Render(Transcript(env, START, before)
                      + ModeLines(env, StateAfter(START, before).abi, entry.regs.compat))
               + (RecordLine(env, entry.regs, entry.mem, KindOf(events[j])) + Render(LinesAfter(env, events, i, j)))
  {
    hide KindOf, HeadOf, TailFor, LinesAfter, ModeLines, Transcript, RecordLine, Render, Boundary, SignalLines, StateAfter;
    var entry, end, before := KindOf(events[i]), KindOf(events[j]), events[..i];
    var st := StateAfter(START, before);
    InCallByParity(START, before);
    TranscriptSplit(env, START, events, i);
    UnbrokenPieces(env, st.abi, events, i, j);
    var head, tail := HeadOf(env, entry.regs, entry.mem), TailFor(env, entry.regs, end);
    var modes, after := ModeLines(env, st.abi, entry.regs.compat), LinesAfter(env, events, i, j);
    Assoc(Transcript(env, START, before), modes, [head, tail] + after);
    RenderAppend(Transcript(env, START, before) + modes, [head, tail] + after);
    RenderAppend([head, tail], after);
    RenderSmall(head, tail);
    HeadAndTail(env, entry.regs, entry.mem, end);
  }

  /** A call that returns the 32-bit number `v` ends in the same error line on both
      ABIs exactly when -4095 <= v <= -1; otherwise its result register is shown. */
  lemma ResultLines(v: int, call: SyscallArgs, libc: Libc, compat: bool)
    requires -TWO31 <= v < TWO31
    ensures ResultText(Returned(v, compat, call), libc)
         == if -4095 <= v <= -1 then " = -1 " + libc.strerror(-v) + "\n"
            else " = " + Hex(if v >= 0 then v else if compat then v + TWO32 else v + TWO64) + "\n"
  {
    hide Hex;
    AbisAgree(v, -v, call);
  }

  // -------------------------------------------------------------- mode lines

  function ModesOf(pieces: seq<Piece>): seq<string> {
    if pieces == [] then []
    else (if pieces[0].ModeLine? then [pieces[0].text] else []) + ModesOf(pieces[1..])
  }

  /** The ABI of each syscall stop, in order. */
  function Abis(events: seq<Event>): seq<bool> {
    if events == [] then []
    else
      var k := KindOf(events[0]);
      if k.Last() then [] else (if k.Syscall? then [k.regs.compat] else []) + Abis(events[1..])
  }

  /** A line for each entry that differs from the one before it. */
  function Changes(child: int, before: bool, abis: seq<bool>): seq<string>
    decreases |abis|
  {
    if abis == [] then []
    else (if abis[0] != before then [ModeText(child, abis[0])] else []) + Changes(child, abis[0], abis[1..])
  }

  /** Mode lines stand exactly at the syscall stops, entry or exit, whose ABI
      differs from that of the previous one; a run starts out as 64 bit. */
  lemma {:induction false} ModeChanges(env: Env, st: State, events: seq<Event>)
    requires env.Valid() && st.Valid()
    ensures ModesOf(Transcript(env, st, events)) == Changes(env.child, st.abi, Abis(events))
    decreases |events|
  {
    hide KindOf, Step, ModeText, ModesOf;
    if events == [] {
      assert ModesOf([]) == [] by { ModesOfNone(); }
    } else {
      var k, rest := KindOf(events[0]), events[1..];
      var now, later := Step(env, st, k), if k.Last() then [] else Transcript(env, Next(st, k), rest);
      ModesOfAppend(now, later);
      StepModes(env, st, k);
      if k.Last() {
        ModesOfNone();
      } else {
        ModeChanges(env, Next(st, k), rest);
        ChangesCons(env.child, st.abi, if k.Syscall? then [k.regs.compat] else [], Abis(rest));
      }
    }
  }

  /** Of a whole run: the first line stands at the first stop that is not 64 bit. */
  lemma RunModes(env: Env, events: seq<Event>)
    requires env.Valid()
    ensures START.inCall.Absent? && ModesOf(Transcript(env, START, events)) == Changes(env.child, false, Abis(events))
  {
    hide Transcript, ModesOf, Changes, Abis;
    ModeChanges(env, START, events);
  }

  lemma ModesOfNone()
    ensures ModesOf([]) == []
  {
  }

  lemma ChangesCons(child: int, before: bool, first: seq<bool>, abis: seq<bool>)
    requires |first| <= 1
    ensures Changes(child, before, first + abis)
         == if first == [] then Changes(child, before, abis)
            else (if first[0] != before then [ModeText(child, first[0])] else []) + Changes(child, first[0], abis)
  {
    if first == [] {
      assert first + abis == abis;
    } else {
      assert (first + abis)[1..] == abis;
    }
  }

  lemma StepModes(env: Env, st: State, k: Kind)
    requires env.Valid() && st.Valid() && (k.Syscall? ==> k.regs.Valid())
    ensures ModesOf(Step(env, st, k))
         == if k.Syscall? && k.regs.compat != st.abi then [ModeText(env.child, k.regs.compat)] else []
  {
    hide EntryText, FinishText, SignalText, ModeText, LookupSyscall, TableFor, ResultOf;
    if k.Syscall? {
      var modes := ModeLines(env, st.abi, k.regs.compat);
      if st.inCall.Some? {
        ModesOfAppend([ReturnTail(env, st.inCall.value, k.regs, k.mem)], modes);
      } else {
        ModesOfAppend(modes, [HeadOf(env, k.regs, k.mem)]);
      }
    }
  }

  lemma {:induction false} ModesOfAppend(a: seq<Piece>, b: seq<Piece>)
    ensures ModesOf(a + b) == ModesOf(a) + ModesOf(b)
  {
    if a == [] {
      assert a + b == b;
    } else {
      var first := if a[0].ModeLine? then [a[0].text] else [];
      ModesOfAppend(a[1..], b);
      assert (a + b)[1..] == a[1..] + b && (a + b)[0] == a[0];
      assert ModesOf(a + b) == first + ModesOf(a[1..] + b);
      Assoc(first, ModesOf(a[1..]), ModesOf(b));
    }
  }

  // ------------------------------------------------------------ how runs end

  ghost predicate EndsAt(events: seq<Event>, i: nat) {
    i < |events| && KindOf(events[i]).Last() && GoesOn(events[..i])
  }

  /** A run is decided by the first event at which it cannot go on: it finishes if that is
      the end of the tracee and fails otherwise; without one it is still running. */
  lemma {:induction false} OutcomeDecided(events: seq<Event>, i: nat)
    ensures EndsAt(events, i) ==> OutcomeOf(events) == if KindOf(events[i]).Ended? then Finished else Failing
    ensures GoesOn(events) ==> OutcomeOf(events) == Running
    decreases |events|
  {
    hide KindOf;
    if events != [] && !KindOf(events[0]).Last() {
      if EndsAt(events, i) && i > 0 {
        assert events[..i][1..] == events[1..][..i - 1];
      }
      OutcomeDecided(events[1..], if i > 0 then i - 1 else 0);
    }
  }

  // ------------------------------------------------------------------ signals

  function NonZero(s: seq<int>): seq<int> {
    if s == [] then [] else (if s[0] != 0 then [s[0]] else []) + NonZero(s[1..])
  }

  lemma NonZeroCons(x: int, s: seq<int>)
    ensures NonZero([x] + s) == NonZero([x]) + NonZero(s)
  {
    assert ([x] + s)[1..] == s && [x][1..] == [];
  }

  /** The signals of all signal-delivery stops, in order. */
  function Signals(events: seq<Event>): seq<int> {
    if events == [] then []
    else
      match KindOf(events[0])
      case Delivery(sig, _) => [sig] + Signals(events[1..])
      case Lost(sig) => [sig]
      case Failure => []
      case Ended(_) => []
      case _ => Signals(events[1..])
  }

  /** The signal, if any, that the run ends before handing on. */
  function Undelivered(events: seq<Event>, deliver: int): (s: seq<int>)
    ensures |s| <= 1
  {
    if events == [] then [deliver]
    else
      var k := KindOf(events[0]);
      if k.Lost? then [k.sig] else if k.Last() then [] else Undelivered(events[1..], DeliverAfter(k))
  }

  /** One round of the loop, as seen by its signals. */
  lemma SignalRound(events: seq<Event>, deliver: int)
    requires events != []
    ensures var k, rest := KindOf(events[0]), events[1..];
            if k.Last() then
              && Resumes(events, deliver) == [deliver]
              && Signals(events) == Undelivered(events, deliver) == if k.Lost? then [k.sig] else []
            else
              && Resumes(events, deliver) == [deliver] + Resumes(rest, DeliverAfter(k))
              && Undelivered(events, deliver) == Undelivered(rest, DeliverAfter(k))
              && Signals(events) == if k.Delivery? then [k.sig] + Signals(rest) else Signals(rest)
  {
    hide KindOf;
  }

  lemma NoRound(deliver: int)
    ensures Resumes([], deliver) == [] && Undelivered([], deliver) == [deliver] && Signals([]) == []
  {
  }

  /** Conservation: what is handed to successive resumes, zeros aside, and what the
      run ends before handing on make up exactly the signals that stopped the
      tracee, in order and once each. */
  lemma {:induction false} SignalsConserved(events: seq<Event>, deliver: int)
    ensures NonZero(Resumes(events, deliver)) + NonZero(Undelivered(events, deliver))
         == NonZero([deliver] + Signals(events))
    decreases |events|
  {
    hide KindOf, Resumes, Undelivered, Signals;
    if events == [] {
      NoRound(deliver);
      assert [deliver] + [] == [deliver];
    } else {
      var k, rest := KindOf(events[0]), events[1..];
      SignalRound(events, deliver);
      NonZeroCons(deliver, Signals(events));
      if !k.Last() {
        SignalsConserved(rest, DeliverAfter(k));
        NonZeroCons(deliver, Resumes(rest, DeliverAfter(k)));
        NonZeroCons(DeliverAfter(k), Signals(rest));
        Assoc(NonZero([deliver]), NonZero(Resumes(rest, DeliverAfter(k))), NonZero(Undelivered(rest, DeliverAfter(k))));
      }
    }
  }

  lemma {:induction false} FinishedDelivers(events: seq<Event>, deliver: int)
    requires OutcomeOf(events) == Finished
    ensures Undelivered(events, deliver) == []
    decreases |events|
  {
    hide KindOf;
    if !KindOf(events[0]).Last() {
      FinishedDelivers(events[1..], DeliverAfter(KindOf(events[0])));
    }
  }

  /** Over a run that ends in tracee termination nothing is lost. */
  lemma EverySignalOnce(events: seq<Event>)
    requires OutcomeOf(events) == Finished
    ensures NonZero(Resumes(events, 0)) == NonZero(Signals(events))
  {
    SignalsConserved(events, 0);
    FinishedDelivers(events, 0);
    NonZeroCons(0, Signals(events));
    assert NonZero(Resumes(events, 0)) + NonZero([]) == NonZero(Resumes(events, 0));
    assert NonZero([0]) == [];
  }

  /** Round by round: a resume hands on the signal of the signal-delivery stop just
      before it, and nothing after any other stop. */
  lemma {:induction false} ResumeAfterStop(events: seq<Event>, deliver: int, i: nat)
    requires i < |Resumes(events, deliver)|
    ensures i <= |events|
    ensures Resumes(events, deliver)[i] == if i == 0 then deliver else DeliverAfter(KindOf(events[i - 1]))
    decreases i
  {
    hide KindOf;
    if i > 0 {
      ResumeAfterStop(events[1..], DeliverAfter(KindOf(events[0])), i - 1);
    }
  }

  // ------------------------------------------------------------ memory reads

  predicate ScalarTails(table: Table) {
    forall i :: 0 <= i < |table| && table[i].Some? ==> table[i].value.ScalarTail()
  }

  /** With tables like the tracer's, no memory is read for a call that fails or that
      the tracee does not come back from. */
  lemma FailureReadsNothing(env: Env, entry: SyscallArgs, end: Kind)
    requires env.Valid() && entry.Valid() && ScalarTails(env.tables.sys64) && ScalarTails(env.tables.sys32)
    requires end.Ended? || (end.Syscall? && ResultOf(end.regs) < 0)
    ensures TailFor(env, entry, end).fetched == []
  {
    FailedCallReadsNothing(entry, RowOf(env, entry), if end.Ended? then -1 else ResultOf(end.regs), end.mem);
  }
}
