/** generate_syscall_matrix.py: the table rows of render_markdown, and the whole
    pipeline from parsed entries to rendered lines. */
module Rendering {
  import opened Numerals
  import opened Text
  import opened Matrix
  import Ranges

  // ----------------------------------------------------------------- one line

  function EscapeCell(value: string): string {
    if value == "" then ""
    else (if value[0] == '|' then "\\|" else [value[0]]) + EscapeCell(value[1..])
  }

  function Label(abi: Abi): string {
    match abi
    case X86_64 => "x86_64"
    case I386 => "i386"
  }

  function ArgTypesText(row: Row): string {
    if row.argTypes != [] then Join(", ", row.argTypes) else "\U{2014}"
  }

  /** What the eleven columns say about a row. */
  function Cells(row: Row): (cells: seq<string>)
    ensures |cells| == 11
  {
    [Label(row.abi), SignedDec(row.number), "0x" + Ranges.PyHex(row.number), row.name, Dec(row.argCount),
     ArgTypesText(row), "YES", if row.argCount == 0 then "N/A" else "GENERIC/PARTIAL", "GENERIC/PARTIAL",
     row.Special(), "`include/strace_data.h:" + Dec(row.sourceLine) + "`"]
  }

  /** The cells as written: the name and the argument types are escaped. */
  function CellTexts(row: Row): seq<string> {
    Cells(row)[3 := EscapeCell(row.name)][5 := EscapeCell(ArgTypesText(row))]
  }

  function LineOf(row: Row): string {
    "| " + Join(" | ", CellTexts(row)) + " |"
  }

  // -------------------------------------------------------- reading a line back

  datatype Read<T> = Malformed | Read(value: T, rest: string)

  /** A cell up to the bar that closes it; an escaped bar belongs to the cell. */
  function ReadCell(s: string): (r: Read<string>)
    ensures r.Read? ==> |r.rest| < |s|
  {
    if |s| < 2 then Malformed
    else if s[0] == ' ' && s[1] == '|' then Read("", s[2..])
    else if s[0] == '\\' && s[1] == '|' then Extend('|', ReadCell(s[2..]))
    else Extend(s[0], ReadCell(s[1..]))
  }

  function Extend(c: char, r: Read<string>): (e: Read<string>)
    ensures e.Read? <==> r.Read?
    ensures e.Read? ==> e.rest == r.rest
  {
    match r
    case Malformed => Malformed
    case Read(cell, rest) => Read([c] + cell, rest)
  }

  function ReadCells(s: string): Read<seq<string>>
    decreases |s|
  {
    match ReadCell(s)
    case Malformed => Malformed
    case Read(cell, rest) =>
      if rest == "" then Read([cell], "")
      else if rest[0] != ' ' then Malformed
      else
        match ReadCells(rest[1..])
        case Malformed => Malformed
        case Read(cells, after) => Read([cell] + cells, after)
  }

  function ReadLine(line: string): Read<seq<string>> {
    if |line| < 2 || line[..2] != "| " then Malformed else ReadCells(line[2..])
  }

  lemma EscapedStart(value: string)
    ensures EscapeCell(value) == "" || EscapeCell(value)[0] != '|'
  {
  }

  lemma ReadPlain(c: char, after: string)
    requires c != '|' && after != "" && after[0] != '|'
    ensures ReadCell([c] + after) == Extend(c, ReadCell(after))
  {
    assert ([c] + after)[1..] == after;
  }

  lemma ReadBar(after: string)
    ensures ReadCell("\\|" + after) == Extend('|', ReadCell(after))
  {
    assert ("\\|" + after)[2..] == after;
  }

  lemma {:induction false} ReadCellText(value: string, rest: string)
    ensures ReadCell(EscapeCell(value) + " |" + rest) == Read(value, rest)
  {
    if value == "" {
      assert (EscapeCell(value) + " |" + rest)[2..] == rest;
    } else {
      hide ReadCell;
      var first, more := if value[0] == '|' then "\\|" else [value[0]], EscapeCell(value[1..]);
      var after := more + " |" + rest;
      assert EscapeCell(value) + " |" + rest == first + after;
      EscapedStart(value[1..]);
      ReadCellText(value[1..], rest);
      if value[0] == '|' {
        ReadBar(after);
      } else {
        ReadPlain(value[0], after);
      }
      assert value == [value[0]] + value[1..];
    }
  }

  function EscapeAll(cells: seq<string>): (r: seq<string>)
    ensures |r| == |cells| && forall i :: 0 <= i < |r| ==> r[i] == EscapeCell(cells[i])
  {
    seq(|cells|, (i: nat) requires i < |cells| => EscapeCell(cells[i]))
  }

  lemma Rebar(first: string, others: string)
    ensures first + (" | " + others) + " |" == first + " |" + (" " + (others + " |"))
  {
  }

  lemma ReadCellsStep(cell: string, tail: string, cells: seq<string>)
    requires ReadCells(tail) == Read(cells, "")
    ensures ReadCells(EscapeCell(cell) + " |" + (" " + tail)) == Read([cell] + cells, "")
  {
    hide EscapeCell, ReadCell;
    ReadCellText(cell, " " + tail);
    assert (" " + tail)[1..] == tail;
  }

  lemma ReadCellsLast(cell: string)
    ensures ReadCells(EscapeCell(cell) + " |") == Read([cell], "")
  {
    hide EscapeCell, ReadCell;
    ReadCellText(cell, "");
    assert EscapeCell(cell) + " |" + "" == EscapeCell(cell) + " |";
  }

  /** Any list of cells survives being escaped, joined and read back. */
  lemma {:induction false} ReadCellsText(cells: seq<string>)
    requires cells != []
    ensures ReadCells(Join(" | ", EscapeAll(cells)) + " |") == Read(cells, "")
  {
    hide EscapeCell, ReadCells, Join;
    var first, others := EscapeCell(cells[0]), EscapeAll(cells[1..]);
    assert EscapeAll(cells) == [first] + others;
    JoinCons(" | ", first, others);
    if |cells| == 1 {
      ReadCellsLast(cells[0]);
      assert cells == [cells[0]];
    } else {
      ReadCellsText(cells[1..]);
      Rebar(first, Join(" | ", others));
      ReadCellsStep(cells[0], Join(" | ", others) + " |", cells[1..]);
      assert cells == [cells[0]] + cells[1..];
    }
  }

  predicate NoBar(s: string) {
    forall i :: 0 <= i < |s| ==> s[i] != '|'
  }

  lemma {:induction false} EscapeNoBar(s: string)
    requires NoBar(s)
    ensures EscapeCell(s) == s
  {
    if s != "" {
      EscapeNoBar(s[1..]);
    }
  }

  lemma NumberNoBar(n: int)
    ensures NoBar(SignedDec(n)) && NoBar("0x" + Ranges.PyHex(n))
    ensures n >= 0 ==> NoBar(Dec(n))
  {
  }

  /** The columns that are not escaped hold no bar. */
  lemma PlainColumns(row: Row, i: nat)
    requires i < 11 && i != 3 && i != 5
    ensures NoBar(Cells(row)[i])
  {
    hide NoBar, ArgTypesText, Dec, SignedDec, Ranges.PyHex;
    NumberNoBar(row.number);
    NumberNoBar(row.argCount);
    EvidenceNoBar(row.sourceLine);
    LabelNoBar(row);
  }

  lemma EvidenceNoBar(n: nat)
    ensures NoBar("`include/strace_data.h:" + Dec(n) + "`")
  {
    hide Dec;
    NumberNoBar(n);
  }

  lemma LabelNoBar(row: Row)
    ensures NoBar(Label(row.abi)) && NoBar(row.Special())
    ensures NoBar("YES") && NoBar("N/A") && NoBar("GENERIC/PARTIAL")
  {
  }

  /** So escaping them too changes nothing. */
  lemma CellTextsEscaped(row: Row)
    ensures CellTexts(row) == EscapeAll(Cells(row))
  {
    hide EscapeCell, Cells;
    var cells := Cells(row);
    forall i | 0 <= i < 11
      ensures CellTexts(row)[i] == EscapeCell(cells[i])
    {
      if i != 3 && i != 5 {
        PlainColumns(row, i);
        EscapeNoBar(cells[i]);
      } else {
        assert cells[3] == row.name && cells[5] == ArgTypesText(row) by { EscapedColumns(row); }
      }
    }
  }

  lemma EscapedColumns(row: Row)
    ensures Cells(row)[3] == row.name && Cells(row)[5] == ArgTypesText(row)
  {
  }

  /** Whatever characters its name and types hold, a row's line is read back as its
      eleven cells. */
  lemma LineRoundTrip(row: Row)
    ensures ReadLine(LineOf(row)) == Read(Cells(row), "")
  {
    hide Cells, CellTexts, ReadCells;
    CellTextsEscaped(row);
    ReadCellsText(Cells(row));
    assert LineOf(row)[2..] == Join(" | ", CellTexts(row)) + " |";
  }

  /** What a reader finds in each of the eleven columns of a row's line. */
  lemma ColumnsSay(row: Row)
    ensures var r := ReadLine(LineOf(row));
            && r.Read? && r.rest == "" && |r.value| == 11
            && r.value[0] == (if row.abi == X86_64 then "x86_64" else "i386")
            && ReadNumber(r.value[1]) == row.number
            && (row.number >= 0 ==> r.value[1] == Dec(row.number) && r.value[2] == Hex(row.number))
            && r.value[3] == row.name
            && ReadNumber(r.value[4]) == row.argCount && r.value[4] == Dec(row.argCount)
            && r.value[5] == (if row.argTypes == [] then "\U{2014}" else Join(", ", row.argTypes))
            && r.value[6] == "YES"
            && r.value[7] == (if row.argCount == 0 then "N/A" else "GENERIC/PARTIAL") && r.value[8] == "GENERIC/PARTIAL"
            && r.value[9] == (if HasVector(row) && HasSizedString(row) then "VSTR + STR+NEXT_SIZE"
                              else if HasVector(row) then "VSTR"
                              else if HasSizedString(row) then "STR+NEXT_SIZE" else "NONE")
            && r.value[10] == "`include/strace_data.h:" + Dec(row.sourceLine) + "`"
  {
    hide ReadLine, LineOf, ReadNumber, Numeral, HasVector, HasSizedString, Row.HasVstr, Row.HasStrNextSize, Join;
    LineRoundTrip(row);
    SpecialTypes(row);
    ReadNumberSigned(row.number);
    ReadNumberSigned(row.argCount);
  }

  /** Rows that render alike agree on ABI, number, name, argument count, source line and
      the types as printed; and on the types themselves if these are as many as the
      arguments and hold no comma, as parse_source makes them. */
  lemma LineInjective(a: Row, b: Row)
    requires LineOf(a) == LineOf(b)
    ensures a.abi == b.abi && a.number == b.number && a.name == b.name && a.argCount == b.argCount
    ensures a.sourceLine == b.sourceLine && ArgTypesText(a) == ArgTypesText(b)
    ensures WellTyped(a) && WellTyped(b) ==> a.argTypes == b.argTypes
  {
    hide ReadLine, LineOf, Join, ArgTypesText;
    LineRoundTrip(a);
    LineRoundTrip(b);
    var ca, cb := Cells(a), Cells(b);
    assert ca[0] == cb[0] && ca[1] == cb[1] && ca[3] == cb[3] && ca[4] == cb[4] && ca[5] == cb[5] && ca[10] == cb[10];
    assert Label(a.abi)[0] == Label(b.abi)[0];
    SignedDecInjective(a.number, b.number);
    SignedDecInjective(a.argCount, b.argCount);
    EvidenceInjective(a.sourceLine, b.sourceLine);
    if WellTyped(a) && WellTyped(b) {
      TypesInjective(a, b);
    }
  }

  lemma EvidenceInjective(m: nat, n: nat)
    requires "`include/strace_data.h:" + Dec(m) + "`" == "`include/strace_data.h:" + Dec(n) + "`"
    ensures m == n
  {
    var text := "`include/strace_data.h:" + Dec(m) + "`";
    assert text[23..|text| - 1] == Dec(m);
    assert text[23..|text| - 1] == Dec(n);
    SignedDecInjective(m, n);
  }

  predicate NoComma(s: string) {
    forall i :: 0 <= i < |s| ==> s[i] != ','
  }

  predicate NoCommas(types: seq<string>) {
    forall t <- types :: NoComma(t)
  }

  predicate WellTyped(row: Row) {
    |row.argTypes| == row.argCount && NoCommas(row.argTypes)
  }

  lemma TypesInjective(a: Row, b: Row)
    requires WellTyped(a) && WellTyped(b) && a.argCount == b.argCount && ArgTypesText(a) == ArgTypesText(b)
    ensures a.argTypes == b.argTypes
  {
    if a.argTypes != [] {
      JoinInjective(a.argTypes, b.argTypes);
    }
  }

  /** The part of a joined list before the first comma is its first element. */
  lemma {:induction false} JoinInjective(a: seq<string>, b: seq<string>)
    requires |a| == |b| > 0 && NoCommas(a) && NoCommas(b)
    requires Join(", ", a) == Join(", ", b)
    ensures a == b
  {
    hide Join;
    var x, y := a[1..], b[1..];
    assert a[0] in a && b[0] in b;
    assert a == [a[0]] + x && b == [b[0]] + y;
    assert (forall t <- x :: t in a) && (forall t <- y :: t in b);
    JoinCons(", ", a[0], x);
    JoinCons(", ", b[0], y);
    UpToComma(a[0], if x == [] then "" else ", " + Join(", ", x), b[0], if y == [] then "" else ", " + Join(", ", y));
    if x != [] {
      assert (", " + Join(", ", x))[2..] == Join(", ", x);
      assert (", " + Join(", ", y))[2..] == Join(", ", y);
      JoinInjective(x, y);
    }
  }

  lemma UpToComma(a: string, s: string, b: string, t: string)
    requires NoComma(a) && NoComma(b) && a + s == b + t
    requires (s == "" || s[0] == ',') && (t == "" || t[0] == ',')
    ensures a == b && s == t
  {
    var text := a + s;
    assert forall i :: 0 <= i < |a| ==> text[i] != ',';
    assert forall i :: 0 <= i < |b| ==> text[i] == b[i] != ',';
    assert |a| < |text| ==> text[|a|] == ',';
    assert |b| < |text| ==> text[|b|] == t[0] == ',';
    assert |a| == |b|;
    assert a == text[..|a|] == b;
    assert s == text[|a|..] == t;
  }

  lemma SignedDecInjective(m: int, n: int)
    requires SignedDec(m) == SignedDec(n)
    ensures m == n
  {
    NumeralValue(if m < 0 then -m else m, 10);
    NumeralValue(if n < 0 then -n else n, 10);
    assert IsDigit(Dec(if m < 0 then -m else m)[0], 10) && IsDigit(Dec(if n < 0 then -n else n)[0], 10);
    if m < 0 && n < 0 {
      assert SignedDec(m)[1..] == Dec(-m) && SignedDec(n)[1..] == Dec(-n);
    }
  }

  // ---------------------------------------------------------------- the matrix

  function Lines(rows: seq<Row>): (lines: seq<string>)
    ensures |lines| == |rows| && forall i :: 0 <= i < |rows| ==> lines[i] == LineOf(rows[i])
  {
    seq(|rows|, (i: nat) requires i < |rows| => LineOf(rows[i]))
  }

  /** The populated entries of render_markdown, ABI by ABI. */
  method RenderRows(rows: Tables) returns (lines: seq<string>)
    ensures lines == Lines(rows[X86_64]) + Lines(rows[I386])
  {
    hide LineOf, CellTexts;
    lines := [];
    ghost var all := Lines(rows[X86_64]) + Lines(rows[I386]);
    var abis := [X86_64, I386];
    for a := 0 to 2
      invariant lines == if a == 0 then [] else if a == 1 then Lines(rows[X86_64]) else all
    {
      var abi := abis[a];
      ghost var before := lines;
      for i := 0 to |rows[abi]|
        invariant lines == before + Lines(rows[abi])[..i]
      {
        var row := rows[abi][i];
        lines := lines + ["| " + Join(" | ", CellTexts(row)) + " |"];
        assert lines[|lines| - 1] == LineOf(row) by { LineText(row); }
      }
      assert Lines(rows[abi])[..|rows[abi]|] == Lines(rows[abi]);
    }
  }

  lemma LineText(row: Row)
    ensures LineOf(row) == "| " + Join(" | ", CellTexts(row)) + " |"
  {
  }

  ghost predicate Increasing(rows: seq<Row>) {
    forall i, j :: 0 <= i < j < |rows| ==> rows[i].number < rows[j].number
  }

  /** Sorting and the duplicate test together give strictly increasing numbers. */
  lemma AcceptedIncreasing(rows: seq<Row>)
    requires Sorted(rows) && Distinct(Numbers(rows))
    ensures Increasing(rows)
  {
    var numbers := Numbers(rows);
    forall i, j | 0 <= i < j < |rows|
      ensures rows[i].number < rows[j].number
    {
      assert numbers[i] != numbers[j];
    }
  }

  /** The two ABI lists hold every entry exactly once. */
  lemma {:induction false} AbisPartition(entries: seq<Row>)
    ensures multiset(OfAbi(entries, X86_64)) + multiset(OfAbi(entries, I386)) == multiset(entries)
  {
    hide OfAbi;
    if entries == [] {
      OfAbiLast([], X86_64);
      OfAbiLast([], I386);
    } else {
      var front, last := entries[..|entries| - 1], entries[|entries| - 1];
      AbisPartition(front);
      assert entries == front + [last];
      OfAbiLast(entries, X86_64);
      OfAbiLast(entries, I386);
      assert last.abi == X86_64 || last.abi == I386;
    }
  }

  lemma OfAbiLast(entries: seq<Row>, abi: Abi)
    ensures entries == [] ==> OfAbi(entries, abi) == []
    ensures entries != [] ==>
              var front, last := entries[..|entries| - 1], entries[|entries| - 1];
              multiset(OfAbi(entries, abi))
              == if last.abi == abi then multiset(OfAbi(front, abi)) + multiset{last} else multiset(OfAbi(front, abi))
  {
  }

  lemma {:induction false} OfAbiHasAbi(entries: seq<Row>, abi: Abi)
    ensures forall row <- OfAbi(entries, abi) :: row.abi == abi
  {
    if entries != [] {
      OfAbiHasAbi(entries[..|entries| - 1], abi);
    }
  }

  function SortedOf(entries: seq<Row>, abi: Abi): seq<Row> {
    SortByNumber(OfAbi(entries, abi))
  }

  /** No entry is lost, duplicated or moved to the other ABI on the way. */
  lemma EveryEntryOnce(entries: seq<Row>)
    ensures multiset(SortedOf(entries, X86_64)) + multiset(SortedOf(entries, I386)) == multiset(entries)
    ensures forall abi, row :: row in SortedOf(entries, abi) ==> row.abi == abi
  {
    hide SortByNumber, OfAbi;
    AbisPartition(entries);
    forall abi, row | row in SortedOf(entries, abi)
      ensures row.abi == abi
    {
      OfAbiHasAbi(entries, abi);
      assert row in multiset(SortedOf(entries, abi));
    }
  }

  // ------------------------------------------------------- the row count of the matrix

  predicate StartsWith(s: string, lead: string) {
    |lead| <= |s| && s[..|lead|] == lead
  }

  predicate LooksLikeRow(line: string) {
    StartsWith(line, "| x86_64 |") || StartsWith(line, "| i386 |")
  }

  function CountRows(lines: seq<string>): nat {
    if lines == [] then 0 else CountRows(lines[..|lines| - 1]) + if LooksLikeRow(lines[|lines| - 1]) then 1 else 0
  }

  lemma {:induction false} CountAppend(a: seq<string>, b: seq<string>)
    ensures CountRows(a + b) == CountRows(a) + CountRows(b)
  {
    hide LooksLikeRow;
    if b == [] {
      assert a + b == a;
    } else {
      assert (a + b)[..|a + b| - 1] == a + b[..|b| - 1];
      CountAppend(a, b[..|b| - 1]);
    }
  }

  lemma {:induction false} CountAll(lines: seq<string>, looks: bool)
    requires forall line <- lines :: LooksLikeRow(line) == looks
    ensures CountRows(lines) == if looks then |lines| else 0
  {
    hide LooksLikeRow;
    if lines != [] {
      assert forall line <- lines[..|lines| - 1] :: line in lines;
      CountAll(lines[..|lines| - 1], looks);
    }
  }

  lemma LineLooksLikeRow(row: Row)
    ensures LooksLikeRow(LineOf(row))
  {
    hide Join, CellTexts, LooksLikeRow;
    FirstText(row);
    var texts := CellTexts(row);
    assert texts == [texts[0]] + texts[1..];
    JoinCons(" | ", texts[0], texts[1..]);
    var rest := " | " + Join(" | ", texts[1..]) + " |";
    assert rest[..2] == " |";
    assert LineOf(row) == "| " + Label(row.abi) + rest;
    LabelLead(row.abi, rest);
  }

  lemma FirstText(row: Row)
    ensures |CellTexts(row)| == 11 && CellTexts(row)[0] == Label(row.abi)
  {
  }

  lemma LabelLead(abi: Abi, rest: string)
    requires |rest| >= 2 && rest[..2] == " |"
    ensures LooksLikeRow("| " + Label(abi) + rest)
  {
    var line, lead := "| " + Label(abi) + rest, "| " + Label(abi) + " |";
    assert line[..|lead|] == lead by {
      assert rest == " |" + rest[2..];
    }
    assert lead == if abi == X86_64 then "| x86_64 |" else "| i386 |";
  }

  lemma LinesCount(rows: seq<Row>)
    ensures CountRows(Lines(rows)) == |rows|
  {
    hide LooksLikeRow, LineOf;
    forall line | line in Lines(rows)
      ensures LooksLikeRow(line)
    {
      var i :| 0 <= i < |rows| && Lines(rows)[i] == line;
      LineLooksLikeRow(rows[i]);
    }
    CountAll(Lines(rows), true);
  }

  /** The prose above the rows: whatever it says, none of it looks like a row. */
  ghost predicate Prose(lines: seq<string>) {
    forall line <- lines :: !LooksLikeRow(line)
  }

  /** render_markdown: the prose, the rows and an empty line. Its own count of the rows
      finds exactly those of the tables. */
  method RenderMarkdown(prose: seq<string>, rows: Tables) returns (r: Result<seq<string>>)
    requires Prose(prose)
    ensures r.Success? <==> |rows[X86_64]| + |rows[I386]| == EXPECTED_TOTAL_ABI_ROWS
    ensures r.Success? ==> r.value == prose + (Lines(rows[X86_64]) + Lines(rows[I386])) + [""]
    ensures r.Raised? ==> r.error == MatrixRowsChanged
  {
    hide LooksLikeRow, LineOf;
    var rendered := RenderRows(rows);
    var lines := prose + rendered + [""];
    CountAppend(prose + rendered, [""]);
    CountAppend(prose, rendered);
    CountAppend(Lines(rows[X86_64]), Lines(rows[I386]));
    CountAll(prose, false);
    LinesCount(rows[X86_64]);
    LinesCount(rows[I386]);
    EmptyLine();
    CountAll([""], false);
    if CountRows(lines) != EXPECTED_TOTAL_ABI_ROWS {
      return Raised(MatrixRowsChanged);
    }
    r := Success(lines);
  }

  lemma EmptyLine()
    ensures !LooksLikeRow("")
  {
  }

  // ------------------------------------------------------------------ the whole of main

  function RowsOf(lines: seq<Line>): (rows: Tables)
    requires LinesAccepted(lines)
    ensures rows[X86_64] == SortedOf(EntriesOf(lines), X86_64) && rows[I386] == SortedOf(EntriesOf(lines), I386)
  {
    map[X86_64 := SortedOf(EntriesOf(lines), X86_64), I386 := SortedOf(EntriesOf(lines), I386)]
  }

  /** What calculate accepts of a header: both tables. */
  ghost predicate TablesAccepted(lines: seq<Line>)
    requires LinesAccepted(lines)
  {
    && Accepts(X86_64, RowsOf(lines)[X86_64], SizesOf(lines))
    && Accepts(I386, RowsOf(lines)[I386], SizesOf(lines))
  }

  /** The header is refused for this: a line, a table or a figure, whichever comes first. */
  ghost predicate Refused(lines: seq<Line>, error: Error) {
    if !LinesAccepted(lines) then exists i: nat :: FirstBadLine(lines, i) && error == LineError(lines[i], i + 1)
    else if !Accepts(X86_64, RowsOf(lines)[X86_64], SizesOf(lines)) then
      Rejects(X86_64, RowsOf(lines)[X86_64], SizesOf(lines), error)
    else if !Accepts(I386, RowsOf(lines)[I386], SizesOf(lines)) then
      Rejects(I386, RowsOf(lines)[I386], SizesOf(lines), error)
    else Changed(RowsOf(lines), SizesOf(lines), error)
  }

  /** main, from the matched lines of the header to those of the matrix. A matrix is
      produced exactly when the header is acceptable and its figures are the pinned ones,
      and then lists every entry once, ABI by ABI, in strictly increasing syscall number;
      otherwise the first thing that is wrong is raised. The two counts of all rows, in
      verify_invariants and render_markdown, never fail. */
  method Generate(lines: seq<Line>, prose: seq<string>) returns (r: Result<seq<string>>)
    requires Prose(prose)
    ensures r.Success? <==> LinesAccepted(lines) && TablesAccepted(lines) && Pinned(RowsOf(lines), SizesOf(lines))
    ensures r.Success? ==>
              var rows := RowsOf(lines);
              && r.value == prose + (Lines(rows[X86_64]) + Lines(rows[I386])) + [""]
              && Increasing(rows[X86_64]) && Increasing(rows[I386])
              && multiset(rows[X86_64]) + multiset(rows[I386]) == multiset(EntriesOf(lines))
              && |EntriesOf(lines)| == EXPECTED_TOTAL_ABI_ROWS
    ensures r.Raised? ==> Refused(lines, r.error)
  {
    hide SortByNumber, LineOf, Numbers, OfAbi, EntriesOf, SizesOf, Pinned, Changed, Reports, Rejects, Distinct, InRange;
    hide LooksLikeRow, LineError, FirstBadLine, LineAccepted;
    var parsed := ParseSource(lines);
    if parsed.Raised? {
      return Raised(parsed.error);
    }
    var rows, sizes := parsed.value.0, parsed.value.1;
    assert rows == RowsOf(lines);
    ghost var entries := EntriesOf(lines);
    ghost var x64, i386 := rows[X86_64], rows[I386];
    var metrics := Calculate(rows, sizes);
    if metrics.Raised? {
      return Raised(metrics.error);
    }
    var verified := VerifyInvariants(rows, metrics.value, sizes);
    if verified.Raised? {
      return Raised(verified.error);
    }
    EveryEntryOnce(entries);
    SortSorts(OfAbi(entries, X86_64));
    SortSorts(OfAbi(entries, I386));
    AcceptedIncreasing(x64);
    AcceptedIncreasing(i386);
    assert |multiset(x64) + multiset(i386)| == |x64| + |i386|;
    r := RenderMarkdown(prose, rows);
  }
}
