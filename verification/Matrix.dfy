/** generate_syscall_matrix.py: sorting the parsed rows, accounting for the gaps
    between them, and rendering one table line per row. */
module Matrix {
  import opened Numerals
  import opened Text
  import Ranges

  datatype Abi = X86_64 | I386

  datatype Row = Row(abi: Abi, identifier: string, number: int, name: string, argCount: nat,
                     argTypes: seq<string>, sourceLine: nat)
  {
    predicate HasVstr() {
      "ARG_VSTR" in argTypes
    }

    predicate HasStrNextSize() {
      exists i :: 0 <= i < |argTypes| - 1 && argTypes[i] == "ARG_STR" && argTypes[i + 1] == "ARG_SIZE"
    }

    function Special(): string {
      if HasVstr() then (if HasStrNextSize() then "VSTR + STR+NEXT_SIZE" else "VSTR")
      else if HasStrNextSize() then "STR+NEXT_SIZE" else "NONE"
    }
  }

  type Tables = m: map<Abi, seq<Row>> | m.Keys == {X86_64, I386} witness map[X86_64 := [], I386 := []]

  // ------------------------------------------------------------------- sorting

  ghost predicate Sorted(rows: seq<Row>) {
    forall i, j :: 0 <= i < j < |rows| ==> rows[i].number <= rows[j].number
  }

  function WithNumber(rows: seq<Row>, n: int): seq<Row> {
    if rows == [] then [] else (if rows[0].number == n then [rows[0]] else []) + WithNumber(rows[1..], n)
  }

  function Insert(row: Row, rows: seq<Row>): (r: seq<Row>)
    ensures multiset(r) == multiset{row} + multiset(rows)
    ensures r[0] == row || (rows != [] && r[0] == rows[0])
  {
    if rows == [] || row.number <= rows[0].number then [row] + rows
    else
      assert rows == [rows[0]] + rows[1..];
      [rows[0]] + Insert(row, rows[1..])
  }

  /** list.sort(key=number): a sorted rearrangement of the list. */
  function SortByNumber(rows: seq<Row>): (r: seq<Row>)
    ensures multiset(r) == multiset(rows) && |r| == |rows|
  {
    if rows == [] then []
    else
      assert rows == [rows[0]] + rows[1..];
      var r := Insert(rows[0], SortByNumber(rows[1..]));
      assert |r| == |multiset(r)|;
      r
  }

  lemma {:induction false} InsertSorted(row: Row, rows: seq<Row>)
    requires Sorted(rows)
    ensures Sorted(Insert(row, rows))
  {
    if rows != [] && row.number > rows[0].number {
      InsertSorted(row, rows[1..]);
      var tail := Insert(row, rows[1..]);
      forall x | x in tail
        ensures rows[0].number <= x.number
      {
        assert x in multiset(tail);
        assert x == row || x in rows[1..];
      }
    }
  }

  lemma {:induction false} InsertStable(row: Row, rows: seq<Row>, n: int)
    ensures WithNumber(Insert(row, rows), n) == (if row.number == n then [row] else []) + WithNumber(rows, n)
  {
    hide WithNumber;
    if rows == [] || row.number <= rows[0].number {
      WithNumberCons(row, rows, n);
    } else {
      var tail := rows[1..];
      InsertStable(row, tail, n);
      WithNumberCons(rows[0], Insert(row, tail), n);
      WithNumberCons(rows[0], tail, n);
      assert rows == [rows[0]] + tail;
      assert row.number == n ==> rows[0].number != n;
    }
  }

  lemma WithNumberCons(row: Row, rows: seq<Row>, n: int)
    ensures WithNumber([row] + rows, n) == (if row.number == n then [row] else []) + WithNumber(rows, n)
  {
    assert ([row] + rows)[1..] == rows;
  }

  lemma {:induction false} SortSorts(rows: seq<Row>)
    ensures Sorted(SortByNumber(rows))
  {
    if rows != [] {
      SortSorts(rows[1..]);
      InsertSorted(rows[0], SortByNumber(rows[1..]));
    }
  }

  /** The sort loses and duplicates nothing, puts the numbers in order, and keeps
      rows with the same number in their order in the source. */
  lemma {:induction false} SortIsStable(rows: seq<Row>, n: int)
    ensures multiset(SortByNumber(rows)) == multiset(rows) && Sorted(SortByNumber(rows))
    ensures WithNumber(SortByNumber(rows), n) == WithNumber(rows, n)
  {
    hide Sorted, Insert;
    SortSorts(rows);
    if rows != [] {
      SortIsStable(rows[1..], n);
      InsertStable(rows[0], SortByNumber(rows[1..]), n);
    }
  }

  function OfAbi(rows: seq<Row>, abi: Abi): seq<Row> {
    if rows == [] then [] else OfAbi(rows[..|rows| - 1], abi) + if rows[|rows| - 1].abi == abi then [rows[|rows| - 1]] else []
  }

  ghost predicate InOrder(rows: seq<Row>) {
    forall i, j :: 0 <= i < j < |rows| ==> rows[i].sourceLine < rows[j].sourceLine
  }

  lemma InOrderSnoc(rows: seq<Row>, row: Row)
    requires InOrder(rows) && forall r <- rows :: r.sourceLine < row.sourceLine
    ensures InOrder(rows + [row])
  {
    assert forall i :: 0 <= i < |rows| ==> rows[i] in rows;
  }

  lemma InOrderFront(rows: seq<Row>)
    requires rows != [] && InOrder(rows)
    ensures InOrder(rows[..|rows| - 1])
    ensures forall r <- rows[..|rows| - 1] :: r in rows && r.sourceLine < rows[|rows| - 1].sourceLine
  {
  }

  /** The list of an ABI holds rows of its own only and keeps the order of the header. */
  lemma {:induction false} OfAbiInOrder(entries: seq<Row>, abi: Abi)
    requires InOrder(entries)
    ensures forall row <- OfAbi(entries, abi) :: row in entries && row.abi == abi
    ensures InOrder(OfAbi(entries, abi))
  {
    hide InOrder;
    if entries == [] {
      NoneInOrder();
    } else {
      var front, last := entries[..|entries| - 1], entries[|entries| - 1];
      InOrderFront(entries);
      OfAbiInOrder(front, abi);
      InOrderSnoc(OfAbi(front, abi), last);
      assert OfAbi(front, abi) + [] == OfAbi(front, abi);
    }
  }

  lemma NoneInOrder()
    ensures InOrder([])
  {
  }

  // ---------------------------------------------------------------- the source

  /** What the regular expressions make of a line of the header: the size of a table, an
      entry with its argument fields split at commas, or nothing of interest. */
  datatype Line =
    | SizeLine(abi: Abi, size: nat)
    | EntryLine(abi: Abi, identifier: string, number: nat, name: string, argCount: nat, fields: seq<string>)
    | OtherLine

  datatype Result<T> = Success(value: T) | Raised(error: Error)
  datatype Error =
    | WrongFieldCount(line: nat) | WrongArgCount(line: nat) | PaddingDeclared(line: nat)
    | MissingSize(abi: Abi) | DuplicateNumber(abi: Abi) | OutOfRange(abi: Abi)
    | FigureChanged(abi: Abi, figure: nat) | TotalChanged | NamesChanged | MatrixRowsChanged

  predicate LineAccepted(line: Line) {
    line.EntryLine? ==>
      |line.fields| == 6 && line.argCount <= 6 && forall t <- line.fields[..line.argCount] :: t != "0" && t != "ARG_NONE"
  }

  function LineError(line: Line, number: nat): Error
    requires line.EntryLine?
  {
    if |line.fields| != 6 then WrongFieldCount(number)
    else if line.argCount > 6 then WrongArgCount(number)
    else PaddingDeclared(number)
  }

  function RowFor(line: Line, number: nat): (row: Row)
    requires line.EntryLine? && LineAccepted(line)
    ensures row.abi == line.abi && row.identifier == line.identifier && row.number == line.number && row.name == line.name
    ensures row.argCount == line.argCount == |row.argTypes| <= 6 && row.argTypes <= line.fields
    ensures row.sourceLine == number
  {
    Row(line.abi, line.identifier, line.number, line.name, line.argCount, line.fields[..line.argCount], number)
  }

  ghost predicate LinesAccepted(lines: seq<Line>) {
    forall i :: 0 <= i < |lines| ==> LineAccepted(lines[i])
  }

  /** An entry is acceptable if it has six fields, at most six arguments, and neither a
      padding zero nor ARG_NONE among the types of these. */
  lemma EntryAcceptable(line: Line)
    requires line.EntryLine?
    ensures LineAccepted(line)
       <==> && |line.fields| == 6 && line.argCount <= 6
            && forall i :: 0 <= i < line.argCount ==> line.fields[i] != "0" && line.fields[i] != "ARG_NONE"
  {
    if |line.fields| == 6 && line.argCount <= 6 {
      assert forall i :: 0 <= i < line.argCount ==> line.fields[i] in line.fields[..line.argCount];
    }
  }

  /** The rows of the entry lines, in order. */
  function EntriesOf(lines: seq<Line>): seq<Row>
    requires LinesAccepted(lines)
  {
    if lines == [] then []
    else
      var last := lines[|lines| - 1];
      EntriesOf(lines[..|lines| - 1]) + if last.EntryLine? then [RowFor(last, |lines|)] else []
  }

  /** The table sizes; a later definition replaces an earlier one. */
  function SizesOf(lines: seq<Line>): map<Abi, nat> {
    if lines == [] then map[]
    else
      var last, sizes := lines[|lines| - 1], SizesOf(lines[..|lines| - 1]);
      if last.SizeLine? then sizes[last.abi := last.size] else sizes
  }

  /** The row says what the entry line says, with as many types as it has arguments. */
  predicate SaysOf(row: Row, line: Line) {
    && line.EntryLine?
    && row.abi == line.abi && row.identifier == line.identifier && row.number == line.number && row.name == line.name
    && row.argCount == line.argCount == |row.argTypes| && row.argTypes <= line.fields
  }

  /** Every entry line is one row, which carries its line number, and there are no others. */
  lemma {:induction false} EntriesAreLines(lines: seq<Line>)
    requires LinesAccepted(lines)
    ensures forall row :: row in EntriesOf(lines) <==>
              1 <= row.sourceLine <= |lines| && SaysOf(row, lines[row.sourceLine - 1])
    ensures forall i, j :: 0 <= i < j < |EntriesOf(lines)| ==> EntriesOf(lines)[i].sourceLine < EntriesOf(lines)[j].sourceLine
  {
    hide LineAccepted, SaysOf;
    if lines != [] {
      var front, last := lines[..|lines| - 1], lines[|lines| - 1];
      EntriesAreLines(front);
      forall row: Row
        ensures row.sourceLine == |lines| && SaysOf(row, last) <==> last.EntryLine? && row == RowFor(last, |lines|)
      {
        OnlyRow(row, last, |lines|);
      }
      assert forall i :: 0 <= i < |EntriesOf(front)| ==> EntriesOf(front)[i] in EntriesOf(front);
    }
  }

  lemma OnlyRow(row: Row, line: Line, number: nat)
    requires LineAccepted(line)
    ensures row.sourceLine == number && SaysOf(row, line) <==> line.EntryLine? && row == RowFor(line, number)
  {
  }

  /** The size of a table is that of its last definition in the header. */
  lemma {:induction false} SizeIsLast(lines: seq<Line>, abi: Abi, i: nat)
    requires i < |lines| && lines[i].SizeLine? && lines[i].abi == abi
    requires forall k :: i < k < |lines| ==> !(lines[k].SizeLine? && lines[k].abi == abi)
    ensures abi in SizesOf(lines) && SizesOf(lines)[abi] == lines[i].size
  {
    var front := lines[..|lines| - 1];
    if i < |front| {
      SizeIsLast(front, abi, i);
    }
  }

  lemma {:induction false} SizeDefined(lines: seq<Line>, abi: Abi)
    ensures abi in SizesOf(lines) <==> exists i :: 0 <= i < |lines| && lines[i].SizeLine? && lines[i].abi == abi
  {
    if lines != [] {
      var front := lines[..|lines| - 1];
      SizeDefined(front, abi);
      assert forall k :: 0 <= k < |front| ==> lines[k] == front[k];
    }
  }

  /** parse_source, from the matched lines on: the first line that is not acceptable is
      raised; otherwise one sorted list per ABI, and the table sizes. */
  method ParseSource(lines: seq<Line>) returns (r: Result<(Tables, map<Abi, nat>)>)
    ensures r.Success? <==> LinesAccepted(lines)
    ensures r.Success? ==> r.value.1 == SizesOf(lines)
    ensures r.Success? ==> forall abi <- r.value.0 :: r.value.0[abi] == SortByNumber(OfAbi(EntriesOf(lines), abi))
    ensures r.Raised? ==> exists i: nat :: FirstBadLine(lines, i) && r.error == LineError(lines[i], i + 1)
  {
    hide SortByNumber, OfAbi, EntriesOf, SizesOf, LineError;
    var parsed: map<Abi, seq<Row>> := map[X86_64 := [], I386 := []];
    var sizes: map<Abi, nat> := map[];
    NothingParsed();
    for i := 0 to |lines|
      invariant LinesAccepted(lines[..i]) && sizes == SizesOf(lines[..i])
      invariant parsed.Keys == {X86_64, I386}
      invariant parsed[X86_64] == OfAbi(EntriesOf(lines[..i]), X86_64)
      invariant parsed[I386] == OfAbi(EntriesOf(lines[..i]), I386)
    {
      var line := lines[i];
      assert lines[..i + 1] == lines[..i] + [line];
      if line.SizeLine? {
        sizes := sizes[line.abi := line.size];
      } else if line.EntryLine? {
        BadLine(lines, i);
        if |line.fields| != 6 {
          return Raised(WrongFieldCount(i + 1));
        }
        if line.argCount > 6 {
          return Raised(WrongArgCount(i + 1));
        }
        if exists t <- line.fields[..line.argCount] :: t == "0" || t == "ARG_NONE" {
          return Raised(PaddingDeclared(i + 1));
        }
        assert line.abi == X86_64 || line.abi == I386;
        parsed := parsed[line.abi := parsed[line.abi] + [RowFor(line, i + 1)]];
      }
      OneMoreLine(lines[..i], line);
    }
    assert lines[..|lines|] == lines;
    var rows: Tables := map[X86_64 := SortByNumber(parsed[X86_64]), I386 := SortByNumber(parsed[I386])];
    r := Success((rows, sizes));
  }

  ghost predicate FirstBadLine(lines: seq<Line>, i: nat) {
    i < |lines| && lines[i].EntryLine? && !LineAccepted(lines[i]) && LinesAccepted(lines[..i])
  }

  lemma BadLine(lines: seq<Line>, i: nat)
    requires i < |lines| && lines[i].EntryLine? && LinesAccepted(lines[..i])
    ensures var line := lines[i];
            && (!LineAccepted(line) ==> FirstBadLine(lines, i) && !LinesAccepted(lines))
            && (|line.fields| != 6 ==> LineError(line, i + 1) == WrongFieldCount(i + 1))
            && (|line.fields| == 6 && line.argCount > 6 ==> LineError(line, i + 1) == WrongArgCount(i + 1))
            && (|line.fields| == 6 && line.argCount <= 6 ==> LineError(line, i + 1) == PaddingDeclared(i + 1))
  {
  }

  lemma NothingParsed()
    ensures EntriesOf([]) == [] && SizesOf([]) == map[] && forall abi :: OfAbi([], abi) == []
  {
  }

  lemma OneMoreLine(lines: seq<Line>, line: Line)
    requires LinesAccepted(lines) && LineAccepted(line)
    ensures LinesAccepted(lines + [line])
    ensures SizesOf(lines + [line]) == if line.SizeLine? then SizesOf(lines)[line.abi := line.size] else SizesOf(lines)
    ensures forall abi ::
              OfAbi(EntriesOf(lines + [line]), abi)
              == OfAbi(EntriesOf(lines), abi)
                 + if line.EntryLine? && line.abi == abi then [RowFor(line, |lines| + 1)] else []
  {
    var all := lines + [line];
    assert all[..|lines|] == lines;
    if line.EntryLine? {
      var entries, row := EntriesOf(lines), RowFor(line, |lines| + 1);
      assert EntriesOf(all) == entries + [row];
      assert (entries + [row])[..|entries|] == entries;
    } else {
      assert EntriesOf(all) == EntriesOf(lines);
    }
  }

  // ---------------------------------------------------------------- the numbers

  function Numbers(rows: seq<Row>): (r: seq<int>)
    ensures |r| == |rows| && forall i :: 0 <= i < |r| ==> r[i] == rows[i].number
  {
    seq(|rows|, (i: nat) requires i < |rows| => rows[i].number)
  }

  function SetOf<T(==)>(s: seq<T>): set<T> {
    set x <- s
  }

  ghost predicate Distinct(s: seq<int>) {
    forall i, j :: 0 <= i < j < |s| ==> s[i] != s[j]
  }

  /** The duplicate test: a list is as long as its set exactly when no number occurs
      twice. */
  lemma {:induction false} DistinctBySize(s: seq<int>)
    ensures |SetOf(s)| <= |s|
    ensures |SetOf(s)| == |s| <==> Distinct(s)
  {
    if s != [] {
      var front, last := s[..|s| - 1], s[|s| - 1];
      DistinctBySize(front);
      assert SetOf(s) == SetOf(front) + {last};
      assert last in front <==> exists i :: 0 <= i < |s| - 1 && s[i] == last;
    }
  }

  predicate InRange(s: seq<int>, size: nat) {
    forall n <- s :: 0 <= n < size
  }

  /** The slot numbers below `size` that are not populated, in order. */
  function Gaps(size: nat, populated: set<int>): (gaps: seq<int>)
    ensures forall i, j :: 0 <= i < j < |gaps| ==> gaps[i] < gaps[j]
    ensures forall n :: n in gaps <==> 0 <= n < size && n !in populated
  {
    if size == 0 then []
    else
      var g := Gaps(size - 1, populated);
      assert forall i :: 0 <= i < |g| ==> g[i] in g;
      g + if size - 1 in populated then [] else [size - 1]
  }

  function Slots(size: nat): (slots: set<int>)
    ensures forall n :: n in slots <==> 0 <= n < size
    ensures |slots| == size
  {
    if size == 0 then {} else Slots(size - 1) + {size - 1}
  }

  /** Gaps and populated numbers partition the slots, and their counts add up. */
  lemma GapPartition(numbers: seq<int>, size: nat)
    requires Distinct(numbers) && InRange(numbers, size)
    ensures var gaps := Gaps(size, SetOf(numbers));
            && SetOf(numbers) !! SetOf(gaps)
            && SetOf(numbers) + SetOf(gaps) == Slots(size)
            && |numbers| + |gaps| == size
  {
    var gaps := Gaps(size, SetOf(numbers));
    DistinctBySize(numbers);
    DistinctBySize(gaps);
    assert SetOf(numbers) + SetOf(gaps) == Slots(size);
  }

  // ------------------------------------------------------------------ calculate

  /** The sums over rows: zero-argument rows, declared argument slots, rows with an
      argument vector, rows with a string followed by its size. */
  datatype Tally = Tally(zeroArgs: nat, declaredArgSlots: nat, vstr: nat, strNextSize: nat)

  datatype Metrics = Metrics(rows: nat, slots: nat, uniqueNames: nat, tally: Tally, gaps: seq<int>, gapRanges: string)

  lemma NamesAre(rows: seq<Row>, name: string)
    ensures name in Names(rows) <==> exists i :: 0 <= i < |rows| && rows[i].name == name
  {
  }

  function Names(rows: seq<Row>): set<string> {
    set row <- rows :: row.name
  }

  function Flag(b: bool): nat {
    if b then 1 else 0
  }

  function TallyOf(rows: seq<Row>): Tally {
    if rows == [] then Tally(0, 0, 0, 0)
    else
      var row, t := rows[|rows| - 1], TallyOf(rows[..|rows| - 1]);
      Tally(t.zeroArgs + Flag(row.argCount == 0), t.declaredArgSlots + row.argCount,
            t.vstr + Flag(row.HasVstr()), t.strNextSize + Flag(row.HasStrNextSize()))
  }

  function TypesOf(rows: seq<Row>): seq<seq<string>> {
    seq(|rows|, (i: nat) requires i < |rows| => rows[i].argTypes)
  }

  ghost predicate HasVector(row: Row) {
    exists i :: 0 <= i < |row.argTypes| && row.argTypes[i] == "ARG_VSTR"
  }

  ghost predicate HasSizedString(row: Row) {
    exists i :: 0 <= i < |row.argTypes| - 1 && row.argTypes[i] == "ARG_STR" && row.argTypes[i + 1] == "ARG_SIZE"
  }

  lemma SpecialTypes(row: Row)
    ensures row.HasVstr() <==> HasVector(row)
    ensures row.HasStrNextSize() <==> HasSizedString(row)
  {
  }

  ghost function WithoutArgs(rows: seq<Row>): set<int> {
    set i | 0 <= i < |rows| && rows[i].argCount == 0
  }

  ghost function WithVector(rows: seq<Row>): set<int> {
    set i | 0 <= i < |rows| && HasVector(rows[i])
  }

  ghost function WithSizedString(rows: seq<Row>): set<int> {
    set i | 0 <= i < |rows| && HasSizedString(rows[i])
  }

  lemma WithoutArgsSnoc(rows: seq<Row>)
    requires rows != []
    ensures |WithoutArgs(rows)| == |WithoutArgs(rows[..|rows| - 1])| + Flag(rows[|rows| - 1].argCount == 0)
  {
    hide HasVector, HasSizedString, Row.HasVstr, Row.HasStrNextSize;
    var n := |rows| - 1;
    var front := rows[..n];
    assert forall i :: 0 <= i < n ==> front[i] == rows[i];
    assert WithoutArgs(rows) == WithoutArgs(front) + if rows[n].argCount == 0 then {n} else {};
  }

  lemma WithVectorSnoc(rows: seq<Row>)
    requires rows != []
    ensures |WithVector(rows)| == |WithVector(rows[..|rows| - 1])| + Flag(rows[|rows| - 1].HasVstr())
  {
    hide HasVector, HasSizedString, Row.HasVstr, Row.HasStrNextSize;
    var n := |rows| - 1;
    var front := rows[..n];
    SpecialTypes(rows[n]);
    assert forall i :: 0 <= i < n ==> front[i] == rows[i];
    assert WithVector(rows) == WithVector(front) + if HasVector(rows[n]) then {n} else {};
  }

  lemma WithSizedStringSnoc(rows: seq<Row>)
    requires rows != []
    ensures |WithSizedString(rows)| == |WithSizedString(rows[..|rows| - 1])| + Flag(rows[|rows| - 1].HasStrNextSize())
  {
    hide HasVector, HasSizedString, Row.HasVstr, Row.HasStrNextSize;
    var n := |rows| - 1;
    var front := rows[..n];
    SpecialTypes(rows[n]);
    assert forall i :: 0 <= i < n ==> front[i] == rows[i];
    assert WithSizedString(rows) == WithSizedString(front) + if HasSizedString(rows[n]) then {n} else {};
  }

  lemma TallySnoc(rows: seq<Row>)
    requires rows != []
    ensures var row, t := rows[|rows| - 1], TallyOf(rows[..|rows| - 1]);
            TallyOf(rows) == Tally(t.zeroArgs + Flag(row.argCount == 0), t.declaredArgSlots + row.argCount,
                                   t.vstr + Flag(row.HasVstr()), t.strNextSize + Flag(row.HasStrNextSize()))
  {
  }

  /** Each of the sums counts what it is named for: rows without arguments, with a
      vector, with a string and its size ... */
  lemma {:induction false} TallyCounts(rows: seq<Row>)
    ensures var t := TallyOf(rows);
            t.zeroArgs == |WithoutArgs(rows)| && t.vstr == |WithVector(rows)| && t.strNextSize == |WithSizedString(rows)|
  {
    hide TallyOf, WithoutArgs, WithVector, WithSizedString, Flag, Row.HasVstr, Row.HasStrNextSize;
    if rows != [] {
      TallyCounts(rows[..|rows| - 1]);
      TallySnoc(rows);
      WithoutArgsSnoc(rows);
      WithVectorSnoc(rows);
      WithSizedStringSnoc(rows);
    } else {
      NoTally();
    }
  }

  lemma NoTally()
    ensures TallyOf([]) == Tally(0, 0, 0, 0) && WithoutArgs([]) == WithVector([]) == WithSizedString([]) == {}
  {
  }

  /** ... and the declared types of all rows together. */
  lemma {:induction false} TallyDeclared(rows: seq<Row>)
    requires forall i :: 0 <= i < |rows| ==> rows[i].argCount == |rows[i].argTypes|
    ensures TallyOf(rows).declaredArgSlots == |Concat(TypesOf(rows))|
  {
    hide TallyOf;
    if rows != [] {
      var front, last := rows[..|rows| - 1], rows[|rows| - 1];
      TallyDeclared(front);
      TallySnoc(rows);
      assert TypesOf(rows) == TypesOf(front) + [last.argTypes];
      ConcatSnoc(TypesOf(front), last.argTypes);
    } else {
      NoTally();
    }
  }

  /** What is reported for a table that was accepted: the gaps are read back from
      their printed ranges and, with the populated numbers, partition the slots. */
  ghost predicate Reports(m: Metrics, rows: seq<Row>, size: nat) {
    && m.rows == |rows| && m.slots == size && m.rows + |m.gaps| == m.slots
    && (forall i, j :: 0 <= i < j < |m.gaps| ==> m.gaps[i] < m.gaps[j])
    && SetOf(Numbers(rows)) !! SetOf(m.gaps)
    && SetOf(Numbers(rows)) + SetOf(m.gaps) == Slots(size)
    && Ranges.ParseRanges(m.gapRanges) == Ranges.Parsed(m.gaps, "")
    && m.uniqueNames == |Names(rows)|
    && m.tally == TallyOf(rows)
  }

  /** The error the checks raise for one ABI, in their order. */
  ghost predicate Rejects(abi: Abi, rows: seq<Row>, sizes: map<Abi, nat>, error: Error) {
    if abi !in sizes then error == MissingSize(abi)
    else if exists i, j :: 0 <= i < j < |rows| && rows[i].number == rows[j].number then error == DuplicateNumber(abi)
    else (exists i :: 0 <= i < |rows| && !(0 <= rows[i].number < sizes[abi])) && error == OutOfRange(abi)
  }

  ghost predicate Accepts(abi: Abi, rows: seq<Row>, sizes: map<Abi, nat>) {
    && abi in sizes && (forall i, j :: 0 <= i < j < |rows| ==> rows[i].number != rows[j].number)
    && forall i :: 0 <= i < |rows| ==> 0 <= rows[i].number < sizes[abi]
  }

  /** The checks say of the list of numbers what they are to say of the rows. */
  lemma AcceptedNumbers(abi: Abi, rows: seq<Row>, sizes: map<Abi, nat>)
    ensures abi !in sizes ==> !Accepts(abi, rows, sizes) && Rejects(abi, rows, sizes, MissingSize(abi))
    ensures abi in sizes && !Distinct(Numbers(rows)) ==>
              !Accepts(abi, rows, sizes) && Rejects(abi, rows, sizes, DuplicateNumber(abi))
    ensures abi in sizes && Distinct(Numbers(rows)) ==>
              if InRange(Numbers(rows), sizes[abi]) then Accepts(abi, rows, sizes)
              else !Accepts(abi, rows, sizes) && Rejects(abi, rows, sizes, OutOfRange(abi))
  {
    var numbers := Numbers(rows);
    assert forall i :: 0 <= i < |rows| ==> numbers[i] == rows[i].number && numbers[i] in numbers;
  }

  method CalculateAbi(abi: Abi, rows: seq<Row>, sizes: map<Abi, nat>) returns (r: Result<Metrics>)
    ensures r.Success? <==> Accepts(abi, rows, sizes)
    ensures r.Success? ==> abi in sizes && Reports(r.value, rows, sizes[abi])
    ensures r.Raised? ==> Rejects(abi, rows, sizes, r.error)
  {
    hide Names, TallyOf, Gaps, Distinct, InRange, Accepts, Rejects;
    AcceptedNumbers(abi, rows, sizes);
    if abi !in sizes {
      return Raised(MissingSize(abi));
    }
    var numbers := Numbers(rows);
    DistinctBySize(numbers);
    if |numbers| != |SetOf(numbers)| {
      return Raised(DuplicateNumber(abi));
    }
    if !InRange(numbers, sizes[abi]) {
      return Raised(OutOfRange(abi));
    }
    var gaps := Gaps(sizes[abi], SetOf(numbers));
    GapPartition(numbers, sizes[abi]);
    var gapRanges := Ranges.CompressRanges(gaps);
    return Success(Metrics(|rows|, sizes[abi], |Names(rows)|, TallyOf(rows), gaps, gapRanges));
  }

  /** calculate: both ABIs are accepted and reported, or the first check that fails
      is raised. */
  method Calculate(rows: Tables, sizes: map<Abi, nat>) returns (r: Result<map<Abi, Metrics>>)
    ensures r.Success? <==> Accepts(X86_64, rows[X86_64], sizes) && Accepts(I386, rows[I386], sizes)
    ensures r.Success? ==> r.value.Keys == rows.Keys && forall abi <- rows :: Reports(r.value[abi], rows[abi], sizes[abi])
    ensures r.Raised? ==>
              if Accepts(X86_64, rows[X86_64], sizes) then Rejects(I386, rows[I386], sizes, r.error)
              else Rejects(X86_64, rows[X86_64], sizes, r.error)
  {
    hide Reports, Rejects, Distinct, InRange;
    var metrics: map<Abi, Metrics> := map[];
    var abis := [X86_64, I386];
    assert abis[0] == X86_64 && abis[1] == I386;
    for i := 0 to 2
      invariant metrics.Keys == set k | 0 <= k < i :: abis[k]
      invariant forall k :: 0 <= k < i ==> Accepts(abis[k], rows[abis[k]], sizes)
      invariant forall k :: 0 <= k < i ==> Reports(metrics[abis[k]], rows[abis[k]], sizes[abis[k]])
    {
      var abi := abis[i];
      var m := CalculateAbi(abi, rows[abi], sizes);
      if m.Raised? {
        assert i == 0 ==> abi == X86_64;
        assert i == 1 ==> Accepts(abis[0], rows[abis[0]], sizes) && abi == I386;
        return Raised(m.error);
      }
      metrics := metrics[abi := m.value];
    }
    r := Success(metrics);
  }

  // ---------------------------------------------------------- verify_invariants

  /** The figures that are pinned, in the order of the checks: rows, slots, unique names,
      zero-argument rows, declared argument slots, vector rows, string-and-size rows. */
  function Figures(rows: seq<Row>, size: nat): (f: seq<nat>)
    ensures |f| == 7
  {
    var t := TallyOf(rows);
    [|rows|, size, |Names(rows)|, t.zeroArgs, t.declaredArgSlots, t.vstr, t.strNextSize]
  }

  function FiguresOf(m: Metrics): (f: seq<nat>)
    ensures |f| == 7
  {
    [m.rows, m.slots, m.uniqueNames, m.tally.zeroArgs, m.tally.declaredArgSlots, m.tally.vstr, m.tally.strNextSize]
  }

  function Expected(abi: Abi): (f: seq<nat>)
    ensures |f| == 7
  {
    match abi
    case X86_64 => [365, 470, 365, 20, 1058, 2, 11]
    case I386 => [426, 470, 405, 25, 1203, 2, 9]
  }

  const EXPECTED_TOTAL_ABI_ROWS := 791
  const EXPECTED_UNIQUE_PRINTED_NAMES := 421

  /** The tables are those the pinned numbers were taken from, as far as these tell. */
  ghost predicate Pinned(rows: Tables, sizes: map<Abi, nat>) {
    && X86_64 in sizes && I386 in sizes && sizes[X86_64] == 470 && sizes[I386] == 470
    && |rows[X86_64]| == 365 && |Names(rows[X86_64])| == 365 && TallyOf(rows[X86_64]) == Tally(20, 1058, 2, 11)
    && |rows[I386]| == 426 && |Names(rows[I386])| == 405 && TallyOf(rows[I386]) == Tally(25, 1203, 2, 9)
    && |Names(rows[X86_64]) + Names(rows[I386])| == 421
  }

  lemma PinnedFigures(rows: Tables, sizes: map<Abi, nat>)
    requires X86_64 in sizes && I386 in sizes
    ensures Pinned(rows, sizes)
       <==> && Figures(rows[X86_64], sizes[X86_64]) == Expected(X86_64) && Figures(rows[I386], sizes[I386]) == Expected(I386)
            && |Names(rows[X86_64]) + Names(rows[I386])| == EXPECTED_UNIQUE_PRINTED_NAMES
  {
    hide Names, TallyOf;
    FiguresAre(rows[X86_64], sizes[X86_64], Expected(X86_64));
    FiguresAre(rows[I386], sizes[I386], Expected(I386));
  }

  lemma FiguresAre(rows: seq<Row>, size: nat, f: seq<nat>)
    requires |f| == 7
    ensures Figures(rows, size) == f
       <==> |rows| == f[0] && size == f[1] && |Names(rows)| == f[2] && TallyOf(rows) == Tally(f[3], f[4], f[5], f[6])
  {
    hide Names, TallyOf;
    var t := TallyOf(rows);
    Seven(|rows|, size, |Names(rows)|, t.zeroArgs, t.declaredArgSlots, t.vstr, t.strNextSize, f);
  }

  lemma Seven(a: nat, b: nat, c: nat, d: nat, e: nat, g: nat, h: nat, f: seq<nat>)
    requires |f| == 7
    ensures [a, b, c, d, e, g, h] == f
       <==> a == f[0] && b == f[1] && c == f[2] && d == f[3] && e == f[4] && g == f[5] && h == f[6]
  {
    var s := [a, b, c, d, e, g, h];
    assert s[0] == a && s[1] == b && s[2] == c && s[3] == d && s[4] == e && s[5] == g && s[6] == h;
  }

  /** The first figure that differs. */
  ghost predicate FirstChange(found: seq<nat>, pinned: seq<nat>, i: nat) {
    i < |found| == |pinned| && found[i] != pinned[i] && forall k :: 0 <= k < i ==> found[k] == pinned[k]
  }

  ghost predicate Changed(rows: Tables, sizes: map<Abi, nat>, error: Error)
    requires X86_64 in sizes && I386 in sizes
  {
    var x64, i386 := Figures(rows[X86_64], sizes[X86_64]), Figures(rows[I386], sizes[I386]);
    if x64 != Expected(X86_64) then
      error.FigureChanged? && error.abi == X86_64 && FirstChange(x64, Expected(X86_64), error.figure)
    else if i386 != Expected(I386) then
      error.FigureChanged? && error.abi == I386 && FirstChange(i386, Expected(I386), error.figure)
    else error == NamesChanged
  }

  method CompareFigures(found: seq<nat>, pinned: seq<nat>) returns (change: nat)
    requires |found| == |pinned|
    ensures change <= |found|
    ensures found == pinned <==> change == |found|
    ensures change < |found| ==> FirstChange(found, pinned, change)
  {
    for i := 0 to |found|
      invariant forall k :: 0 <= k < i ==> found[k] == pinned[k]
    {
      if found[i] != pinned[i] {
        return i;
      }
    }
    change := |found|;
  }

  /** verify_invariants: no error exactly for the pinned tables. The check of the total
      number of rows comes after those of each table, and never fails. */
  method VerifyInvariants(rows: Tables, metrics: map<Abi, Metrics>, ghost sizes: map<Abi, nat>)
    returns (error: Result<()>)
    requires metrics.Keys == rows.Keys && X86_64 in sizes && I386 in sizes
    requires forall abi <- rows :: Reports(metrics[abi], rows[abi], sizes[abi])
    ensures error.Success? <==> Pinned(rows, sizes)
    ensures error.Raised? ==> Changed(rows, sizes, error.error)
    ensures error.Success? ==> |rows[X86_64]| + |rows[I386]| == EXPECTED_TOTAL_ABI_ROWS
  {
    hide Names, TallyOf, Expected, Reports, Figures, FiguresOf, FirstChange, Pinned;
    ReportedFigures(metrics[X86_64], rows[X86_64], sizes[X86_64]);
    ReportedFigures(metrics[I386], rows[I386], sizes[I386]);
    ExpectedTotal();
    PinnedFigures(rows, sizes);
    RowFigure(rows[X86_64], sizes[X86_64]);
    RowFigure(rows[I386], sizes[I386]);
    var change := CompareFigures(FiguresOf(metrics[X86_64]), Expected(X86_64));
    if change < 7 {
      return Raised(FigureChanged(X86_64, change));
    }
    change := CompareFigures(FiguresOf(metrics[I386]), Expected(I386));
    if change < 7 {
      return Raised(FigureChanged(I386, change));
    }
    if |rows[X86_64]| + |rows[I386]| != EXPECTED_TOTAL_ABI_ROWS {
      return Raised(TotalChanged);
    }
    if |Names(rows[X86_64]) + Names(rows[I386])| != EXPECTED_UNIQUE_PRINTED_NAMES {
      return Raised(NamesChanged);
    }
    error := Success(());
  }

  lemma ReportedFigures(m: Metrics, rows: seq<Row>, size: nat)
    requires Reports(m, rows, size)
    ensures FiguresOf(m) == Figures(rows, size)
  {
  }

  lemma RowFigure(rows: seq<Row>, size: nat)
    ensures Figures(rows, size)[0] == |rows|
  {
  }

  lemma ExpectedTotal()
    ensures Expected(X86_64)[0] + Expected(I386)[0] == EXPECTED_TOTAL_ABI_ROWS
  {
  }
}
