/** print_bytes, print_string and print_argv: what the tracee's memory holds
    behind a pointer argument. */
module Buffers {
  import opened Numerals
  import opened Tracee
  import opened Quoting
  import opened Text

  const BYTES_LIMIT: nat := 64
  const STRING_LIMIT: nat := 4096
  const ARGV_LIMIT: nat := 128

  function Min(a: int, b: int): int {
    if a < b then a else b
  }

  // ------------------------------------------------------------- print_bytes

  function BytesText(mem: Memory, address: u64, count: u64): string {
    var wanted := Min(count, BYTES_LIMIT);
    if wanted == 0 then Quoted([])
    else if mem.Fetch(address, wanted).Empty() then Hex(address)
    else
      var bytes := mem.Fetch(address, wanted).bytes;
      Quoted(bytes) + if |bytes| < count then "..." else ""
  }

  function BytesReads(address: u64, count: u64): seq<Read> {
    if count == 0 then [] else [Read(address, Min(count, BYTES_LIMIT))]
  }

  method PrintBytes(err: Stderr, p: Process, address: u64, count: u64)
    modifies err, p`readLog
    ensures err.text == old(err.text) + BytesText(p.mem, address, count)
    ensures p.readLog == old(p.readLog) + BytesReads(address, count)
  {
    var buf := new byte[64];
    var wanted := if count < buf.Length then count else buf.Length;
    var size := 0;
    if wanted > 0 {
      size := p.ReadTracee(address, buf, wanted);
    }
    if size < 0 || (wanted > 0 && size == 0) {
      err.Fputs(Hex(address));
      return;
    }
    assert buf[..size] == if wanted == 0 then [] else p.mem.Fetch(address, wanted).bytes;
    PrintQuoted(err, buf, size);
    if size < count {
      err.Fputs("...");
    }
  }

  /** What stands for `count` bytes at `address`: all that one read of at most 64 bytes
      returns, with an ellipsis exactly when these are fewer than `count`; or the bare
      address if it returns nothing. */
  ghost predicate ShowsBytes(text: string, mem: Memory, address: u64, count: u64) {
    var wanted: nat := if count < 64 then count else 64;
    var n := mem.readable(address, wanted);
    if count == 0 then text == "\"\""
    else if n <= 0 then text == Hex(address)
    else
      var shown: nat := if n < wanted then n else wanted;
      text == Quoted(mem.Span(address, shown)) + if shown < count then "..." else ""
  }

  lemma BytesShown(mem: Memory, address: u64, count: u64)
    ensures ShowsBytes(BytesText(mem, address, count), mem, address, count)
    ensures BytesReads(address, count)
         == if count == 0 then [] else [Read(address, if count < 64 then count else 64)]
  {
    if count == 0 {
      EscapedNone();
      assert Quoted([]) == "\"\"";
    }
  }

  /** A short buffer that is readable is shown whole. */
  lemma WholeBuffer(mem: Memory, address: u64, count: u64)
    requires 0 < count <= 64 && mem.readable(address, count) >= count
    ensures BytesText(mem, address, count) == Quoted(mem.Span(address, count))
  {
    hide Quoted;
    BytesShown(mem, address, count);
    assert Quoted(mem.Span(address, count)) + "" == Quoted(mem.Span(address, count));
  }

  // ------------------------------------------------------------ print_string

  /** The bytes before the first NUL, or all of them. */
  function UpToNul(bytes: seq<byte>): (s: seq<byte>)
    ensures s <= bytes && 0 !in s
    ensures s == bytes <==> 0 !in bytes
    ensures |s| < |bytes| ==> bytes[|s|] == 0
  {
    if bytes == [] || bytes[0] == 0 then [] else [bytes[0]] + UpToNul(bytes[1..])
  }

  function StringText(mem: Memory, address: u64): string {
    if mem.Fetch(address, STRING_LIMIT).Empty() then Hex(address)
    else
      var bytes := mem.Fetch(address, STRING_LIMIT).bytes;
      Quoted(UpToNul(bytes)) + if 0 in bytes then "" else "..."
  }

  method PrintString(err: Stderr, p: Process, address: u64)
    modifies err, p`readLog
    ensures err.text == old(err.text) + StringText(p.mem, address)
    ensures p.readLog == old(p.readLog) + [Read(address, STRING_LIMIT)]
  {
    hide Quoted, UpToNul, Hex;
    var buf := new byte[4096];
    var size := p.ReadTracee(address, buf, buf.Length);
    if size <= 0 {
      err.Fputs(Hex(address));
      return;
    }
    var length := |UpToNul(buf[..size])|;
    assert buf[..length] == UpToNul(buf[..size]);
    assert buf[..size] == p.mem.Fetch(address, STRING_LIMIT).bytes;
    PrintQuoted(err, buf, length);
    if length == size {
      err.Fputs("...");
    }
  }

  /** The text shows `shown` of `size` bytes: those before the first NUL, with an
      ellipsis exactly when there is none. */
  ghost predicate ShowsUpToNul(text: string, mem: Memory, address: u64, size: nat, shown: nat) {
    && shown <= size
    && 0 !in mem.Span(address, shown) && (shown < size ==> mem.byteAt(address + shown) == 0)
    && text == Quoted(mem.Span(address, shown)) + if shown == size then "..." else ""
  }

  ghost predicate ShowsFirst(text: string, mem: Memory, address: u64, size: nat) {
    exists shown: nat :: ShowsUpToNul(text, mem, address, size, shown)
  }

  /** What stands for the string at `address`: the bytes before the first NUL of those
      that one read of 4096 bytes returns, or the bare address if it returns nothing. */
  ghost predicate ShowsString(text: string, mem: Memory, address: u64) {
    var n := mem.readable(address, 4096);
    if n <= 0 then text == Hex(address)
    else if n < 4096 then ShowsFirst(text, mem, address, n)
    else ShowsFirst(text, mem, address, 4096)
  }

  lemma StringShown(mem: Memory, address: u64)
    ensures ShowsString(StringText(mem, address), mem, address)
  {
    hide Quoted, UpToNul;
    var r := mem.Fetch(address, 4096);
    if !r.Empty() {
      var size, s := |r.bytes|, UpToNul(r.bytes);
      assert |s| < size ==> r.bytes[|s|] == mem.byteAt(address + |s|);
      assert s == mem.Span(address, |s|);
      assert |s| == size ==> s == r.bytes;
      assert ShowsUpToNul(StringText(mem, address), mem, address, size, |s|);
    }
  }

  // -------------------------------------------------------------- print_argv

  function Width(compat: bool): nat {
    if compat then 4 else 8
  }

  /** An x86 integer in memory: least significant byte first. */
  function LittleEndian(bytes: seq<byte>): (n: nat)
  {
    if bytes == [] then 0 else bytes[0] + 256 * LittleEndian(bytes[1..])
  }

  lemma {:induction false} LittleEndianZeros(bytes: seq<byte>, zeros: seq<byte>)
    requires forall i :: 0 <= i < |zeros| ==> zeros[i] == 0
    ensures LittleEndian(bytes + zeros) == LittleEndian(bytes)
    decreases |bytes| + |zeros|
  {
    if bytes != [] {
      assert (bytes + zeros)[1..] == bytes[1..] + zeros;
      LittleEndianZeros(bytes[1..], zeros);
    } else {
      assert bytes + zeros == zeros;
      if zeros != [] {
        assert [] + zeros[1..] == zeros[1..];
        LittleEndianZeros([], zeros[1..]);
      }
    }
  }

  function Power256(n: nat): nat {
    if n == 0 then 1 else 256 * Power256(n - 1)
  }

  lemma LittleEndianBound(bytes: seq<byte>)
    ensures LittleEndian(bytes) < Power256(|bytes|)
    ensures Power256(4) == TWO32 && Power256(8) == TWO64
  {
    if bytes != [] {
      LittleEndianBound(bytes[1..]);
    }
  }

  /** A pointer slot carries the string it points to, as it is printed. */
  datatype Slot = Unreadable | Null | Pointer(address: u64, text: string)

  function SlotAddress(address: u64, compat: bool, i: nat): u64 {
    (address + if compat then 4 * i else 8 * i) % TWO64
  }

  /** The i-th pointer of the vector, unless it could not be read in full. */
  function SlotAt(mem: Memory, address: u64, compat: bool, i: nat): Slot {
    var r := mem.Fetch(SlotAddress(address, compat, i), Width(compat));
    if r.Fault? || |r.bytes| != Width(compat) then Unreadable
    else
      LittleEndianBound(r.bytes);
      var value := LittleEndian(r.bytes);
      if value == 0 then Null else Pointer(value, StringText(mem, value))
  }

  /** The 128 slots the walk may look at. */
  function Slots(mem: Memory, address: u64, compat: bool): (slots: seq<Slot>)
    ensures |slots| == ARGV_LIMIT
    ensures forall i :: 0 <= i < ARGV_LIMIT ==> slots[i] == SlotAt(mem, address, compat, i)
  {
    seq(ARGV_LIMIT, (i: nat) => SlotAt(mem, address, compat, i))
  }

  /** How many elements are shown: those before the first NULL or unreadable slot. */
  function ElementCount(slots: seq<Slot>): (n: nat)
    ensures n <= |slots|
    ensures forall k :: 0 <= k < n ==> slots[k].Pointer?
    ensures n < |slots| ==> !slots[n].Pointer?
  {
    if slots == [] || !slots[0].Pointer? then 0 else 1 + ElementCount(slots[1..])
  }

  function ElementStrings(elements: seq<Slot>): (r: seq<string>)
    requires forall i :: 0 <= i < |elements| ==> elements[i].Pointer?
    ensures |r| == |elements| && forall k :: 0 <= k < |r| ==> r[k] == elements[k].text
  {
    if elements == [] then []
    else ElementStrings(elements[..|elements| - 1]) + [elements[|elements| - 1].text]
  }

  /** The vector ends in a NULL among its first 128 slots, all readable up to it. */
  predicate EndsInNull(slots: seq<Slot>) {
    var n := ElementCount(slots);
    n < |slots| && slots[n].Null?
  }

  function ArgvText(address: u64, slots: seq<Slot>): string
    requires slots != []
  {
    if slots[0].Unreadable? then Hex(address)
    else
      "[" + Join(", ", ElementStrings(slots[..ElementCount(slots)]))
      + if EndsInNull(slots) then "]" else ", ...]"
  }

  function SlotRead(address: u64, compat: bool, i: nat): Read {
    Read(SlotAddress(address, compat, i), Width(compat))
  }

  /** The reads made for elements `elements`: each slot, then its string. */
  function ElementReads(address: u64, compat: bool, elements: seq<Slot>): seq<Read>
    requires forall i :: 0 <= i < |elements| ==> elements[i].Pointer?
  {
    if elements == [] then []
    else
      var n := |elements| - 1;
      ElementReads(address, compat, elements[..n])
      + [SlotRead(address, compat, n), Read(elements[n].address, STRING_LIMIT)]
  }

  function ArgvReads(address: u64, compat: bool, slots: seq<Slot>): seq<Read> {
    var n := ElementCount(slots);
    ElementReads(address, compat, slots[..n]) + if n < |slots| then [SlotRead(address, compat, n)] else []
  }

  /** Reads one pointer into an element that starts out as zero. */
  method ReadSlot(p: Process, address: u64, compat: bool, i: nat) returns (ok: bool, element: nat, ghost slot: Slot)
    modifies p`readLog
    ensures p.readLog == old(p.readLog) + [SlotRead(address, compat, i)]
    ensures slot == SlotAt(p.mem, address, compat, i)
    ensures match slot
            case Unreadable => !ok
            case Null => ok && element == 0
            case Pointer(a, text) => ok && element == a != 0 && text == StringText(p.mem, a)
  {
    var width := Width(compat);
    var buf := new byte[8](_ => 0);
    var size := p.ReadTracee(SlotAddress(address, compat, i), buf, width);
    ok := size == width;
    element := LittleEndian(buf[..]);
    if ok {
      assert forall k :: width <= k < 8 ==> buf[k] == 0;
      LittleEndianZeros(buf[..width], buf[width..]);
      assert buf[..] == buf[..width] + buf[width..];
      LittleEndianBound(buf[..width]);
    }
    slot := SlotAt(p.mem, address, compat, i);
  }

  predicate Walked(slots: seq<Slot>, i: nat) {
    i <= |slots| && forall k :: 0 <= k < i ==> slots[k].Pointer?
  }

  lemma CountIs(slots: seq<Slot>, i: nat)
    requires Walked(slots, i) && (i < |slots| ==> !slots[i].Pointer?)
    ensures ElementCount(slots) == i
  {
  }

  /** What stands in the transcript after `i` elements. */
  function ArgvPrefix(slots: seq<Slot>, i: nat): string
    requires Walked(slots, i)
  {
    if i == 0 then "" else "[" + Join(", ", ElementStrings(slots[..i]))
  }

  /** What is printed between the text of `i` elements and the next string. */
  function ArgvLead(i: nat): string {
    if i == 0 then "[" else ", "
  }

  /** What is printed when slot `i` ends the walk. */
  function ArgvClose(address: u64, slot: Slot, i: nat): string {
    if slot.Null? then (if i == 0 then "[]" else "]")
    else if i == 0 then Hex(address) else ", ...]"
  }

  lemma ElementDone(start: string, log: seq<Read>, address: u64, compat: bool, slots: seq<Slot>, i: nat)
    requires i < |slots| && Walked(slots, i + 1)
    ensures start + ArgvPrefix(slots, i + 1)
         == start + ArgvPrefix(slots, i) + (ArgvLead(i) + slots[i].text)
    ensures log + ElementReads(address, compat, slots[..i + 1])
         == log + ElementReads(address, compat, slots[..i])
            + ([SlotRead(address, compat, i)] + [Read(slots[i].address, STRING_LIMIT)])
  {
    hide SlotRead;
    assert slots[..i + 1][..i] == slots[..i];
    JoinSnoc(", ", ElementStrings(slots[..i]), slots[i].text);
    assert ArgvPrefix(slots, i + 1) == ArgvPrefix(slots, i) + (ArgvLead(i) + slots[i].text);
    Assoc(start, ArgvPrefix(slots, i), ArgvLead(i) + slots[i].text);
  }

  lemma WalkStopped(start: string, log: seq<Read>, address: u64, compat: bool, slots: seq<Slot>, i: nat)
    requires i < |slots| && Walked(slots, i) && !slots[i].Pointer?
    ensures start + ArgvText(address, slots) == start + ArgvPrefix(slots, i) + ArgvClose(address, slots[i], i)
    ensures log + ArgvReads(address, compat, slots)
         == log + ElementReads(address, compat, slots[..i]) + ([SlotRead(address, compat, i)] + [])
  {
    CountIs(slots, i);
    if i == 0 {
      assert ElementStrings(slots[..0]) == [];
    }
    assert ArgvText(address, slots) == ArgvPrefix(slots, i) + ArgvClose(address, slots[i], i);
    Assoc(start, ArgvPrefix(slots, i), ArgvClose(address, slots[i], i));
  }

  lemma WalkCapped(start: string, address: u64, compat: bool, slots: seq<Slot>)
    requires slots != [] && Walked(slots, |slots|)
    ensures start + ArgvText(address, slots) == start + ArgvPrefix(slots, |slots|) + ", ...]"
    ensures ArgvReads(address, compat, slots) == ElementReads(address, compat, slots[..|slots|])
  {
    CountIs(slots, |slots|);
    Assoc(start, ArgvPrefix(slots, |slots|), ", ...]");
  }

  /** One round of print_argv's loop: `more` says whether it goes on. */
  method PrintSlot(err: Stderr, p: Process, address: u64, compat: bool, i: nat) returns (more: bool, ghost slot: Slot)
    modifies err, p`readLog
    ensures slot == SlotAt(p.mem, address, compat, i) && more == slot.Pointer?
    ensures err.text == old(err.text) + if more then ArgvLead(i) + slot.text else ArgvClose(address, slot, i)
    ensures p.readLog == old(p.readLog) + ([SlotRead(address, compat, i)]
                         + if more then [Read(slot.address, STRING_LIMIT)] else [])
  {
    var ok, element;
    ok, element, slot := ReadSlot(p, address, compat, i);
    if !ok {
      if i == 0 {
        err.Fputs(Hex(address));
      } else {
        err.Fputs(", ...]");
      }
      return false, slot;
    }
    if i == 0 {
      err.Fputc('[');
    }
    if element == 0 {
      err.Fputc(']');
      return false, slot;
    }
    if i > 0 {
      err.Fputs(", ");
    }
    assert err.text == old(err.text) + ArgvLead(i);
    PrintString(err, p, element);
    Assoc(old(err.text), ArgvLead(i), slot.text);
    more := true;
  }

  method PrintArgv(err: Stderr, p: Process, address: u64, compat: bool)
    modifies err, p`readLog
    ensures err.text == old(err.text) + ArgvText(address, Slots(p.mem, address, compat))
    ensures p.readLog == old(p.readLog) + ArgvReads(address, compat, Slots(p.mem, address, compat))
  {
    ghost var start, log, slots := err.text, p.readLog, Slots(p.mem, address, compat);
    for i := 0 to 128
      invariant Walked(slots, i)
      invariant err.text == start + ArgvPrefix(slots, i)
      invariant p.readLog == log + ElementReads(address, compat, slots[..i])
    {
      var more, slot := PrintSlot(err, p, address, compat, i);
      assert slots[i] == slot;
      if !more {
        WalkStopped(start, log, address, compat, slots, i);
        return;
      }
      ElementDone(start, log, address, compat, slots, i);
    }
    WalkCapped(start, address, compat, slots);
    err.Fputs(", ...]");
  }

  // ------------------------------------------------ the vector as it lies in memory

  /** Slot `i` of the vector holds the pointer `p`: four bytes, four apart, on i386 and
      eight bytes, eight apart, on x86-64, least significant byte first. */
  ghost predicate HoldsPointer(mem: Memory, address: u64, compat: bool, i: nat, p: u64) {
    if compat then
      var at := (address + 4 * i) % TWO64;
      && mem.readable(at, 4) >= 4
      && p == mem.byteAt(at) + 0x100 * mem.byteAt(at + 1) + 0x1_0000 * mem.byteAt(at + 2) + 0x100_0000 * mem.byteAt(at + 3)
    else
      var at := (address + 8 * i) % TWO64;
      && mem.readable(at, 8) >= 8
      && p == mem.byteAt(at) + 0x100 * mem.byteAt(at + 1) + 0x1_0000 * mem.byteAt(at + 2) + 0x100_0000 * mem.byteAt(at + 3)
              + 0x1_0000_0000 * (mem.byteAt(at + 4) + 0x100 * mem.byteAt(at + 5)
                                 + 0x1_0000 * mem.byteAt(at + 6) + 0x100_0000 * mem.byteAt(at + 7))
  }

  ghost predicate CannotRead(mem: Memory, address: u64, compat: bool, i: nat) {
    if compat then mem.readable((address + 4 * i) % TWO64, 4) < 4 else mem.readable((address + 8 * i) % TWO64, 8) < 8
  }

  /** `ps` are the pointers of the vector: those before the first NULL or unreadable slot,
      but no more than 128. */
  ghost predicate Vector(mem: Memory, address: u64, compat: bool, ps: seq<u64>) {
    && |ps| <= 128
    && (forall i :: 0 <= i < |ps| ==> ps[i] != 0 && HoldsPointer(mem, address, compat, i, ps[i]))
    && (|ps| < 128 ==> HoldsPointer(mem, address, compat, |ps|, 0) || CannotRead(mem, address, compat, |ps|))
  }

  function StringsAt(mem: Memory, ps: seq<u64>): (r: seq<string>)
    ensures |r| == |ps| && forall i :: 0 <= i < |ps| ==> r[i] == StringText(mem, ps[i])
  {
    seq(|ps|, (i: nat) requires i < |ps| => StringText(mem, ps[i]))
  }

  /** What stands for such a vector: its strings between brackets, cut if no NULL was
      reached, or the bare address if its first slot cannot be read. */
  ghost predicate ShowsVector(text: string, mem: Memory, address: u64, compat: bool, ps: seq<u64>) {
    var list := Join(", ", StringsAt(mem, ps));
    if |ps| < 128 && HoldsPointer(mem, address, compat, |ps|, 0) then text == "[" + list + "]"
    else if ps == [] then text == Hex(address)
    else text == "[" + list + ", ...]"
  }

  lemma LittleEndianUnfold(bytes: seq<byte>)
    requires |bytes| >= 4
    ensures LittleEndian(bytes)
         == bytes[0] + 0x100 * bytes[1] + 0x1_0000 * bytes[2] + 0x100_0000 * bytes[3] + 0x1_0000_0000 * LittleEndian(bytes[4..])
  {
    LittleEndianTwo(bytes);
    LittleEndianTwo(bytes[2..]);
    assert bytes[2..][2..] == bytes[4..];
  }

  lemma LittleEndianTwo(bytes: seq<byte>)
    requires |bytes| >= 2
    ensures LittleEndian(bytes) == bytes[0] + 0x100 * bytes[1] + 0x1_0000 * LittleEndian(bytes[2..])
  {
    assert bytes[1..][1..] == bytes[2..];
  }

  lemma SlotHolds(mem: Memory, address: u64, compat: bool, i: nat, p: u64)
    requires HoldsPointer(mem, address, compat, i, p)
    ensures SlotAt(mem, address, compat, i) == if p == 0 then Null else Pointer(p, StringText(mem, p))
  {
    hide StringText, LittleEndian;
    var at := SlotAddress(address, compat, i);
    var bytes := mem.Fetch(at, Width(compat)).bytes;
    LittleEndianUnfold(bytes);
    if compat {
      NoBytes(bytes[4..]);
    } else {
      LittleEndianUnfold(bytes[4..]);
      NoBytes(bytes[4..][4..]);
    }
  }

  lemma NoBytes(bytes: seq<byte>)
    requires bytes == []
    ensures LittleEndian(bytes) == 0
  {
  }

  lemma SlotMissing(mem: Memory, address: u64, compat: bool, i: nat)
    requires CannotRead(mem, address, compat, i)
    ensures SlotAt(mem, address, compat, i) == Unreadable
  {
  }

  lemma VectorCount(mem: Memory, address: u64, compat: bool, ps: seq<u64>)
    requires Vector(mem, address, compat, ps)
    ensures ElementCount(Slots(mem, address, compat)) == |ps|
    ensures forall i :: 0 <= i < |ps| ==> SlotAt(mem, address, compat, i) == Pointer(ps[i], StringText(mem, ps[i]))
    ensures |ps| < 128 ==>
              SlotAt(mem, address, compat, |ps|) == if HoldsPointer(mem, address, compat, |ps|, 0) then Null else Unreadable
  {
    hide SlotAt, HoldsPointer, CannotRead, StringText;
    var slots := Slots(mem, address, compat);
    forall i | 0 <= i < |ps|
      ensures SlotAt(mem, address, compat, i) == Pointer(ps[i], StringText(mem, ps[i]))
    {
      SlotHolds(mem, address, compat, i, ps[i]);
    }
    if |ps| < 128 {
      if HoldsPointer(mem, address, compat, |ps|, 0) {
        SlotHolds(mem, address, compat, |ps|, 0);
      } else {
        SlotMissing(mem, address, compat, |ps|);
      }
    }
    CountIs(slots, |ps|);
  }

  /** print_argv's text, from memory. */
  lemma VectorShown(mem: Memory, address: u64, compat: bool, ps: seq<u64>)
    requires Vector(mem, address, compat, ps)
    ensures ShowsVector(ArgvText(address, Slots(mem, address, compat)), mem, address, compat, ps)
  {
    hide SlotAt, HoldsPointer, CannotRead, StringText, Hex, ElementStrings, Join, ElementCount;
    var slots := Slots(mem, address, compat);
    VectorCount(mem, address, compat, ps);
    assert ElementStrings(slots[..|ps|]) == StringsAt(mem, ps);
  }

  /** Every memory holds such a vector at every address. */
  lemma AlwaysVector(mem: Memory, address: u64, compat: bool) returns (ps: seq<u64>)
    ensures Vector(mem, address, compat, ps)
  {
    hide HoldsPointer, CannotRead;
    ps := [];
    for i := 0 to 128
      invariant |ps| == i
      invariant forall k :: 0 <= k < i ==> ps[k] != 0 && HoldsPointer(mem, address, compat, k, ps[k])
    {
      if CannotRead(mem, address, compat, i) {
        return;
      }
      var p := PointerThere(mem, address, compat, i);
      if p == 0 {
        return;
      }
      ps := ps + [p];
    }
  }

  lemma PointerThere(mem: Memory, address: u64, compat: bool, i: nat) returns (p: u64)
    requires !CannotRead(mem, address, compat, i)
    ensures HoldsPointer(mem, address, compat, i, p)
  {
    if compat {
      var at := (address + 4 * i) % TWO64;
      p := mem.byteAt(at) + 0x100 * mem.byteAt(at + 1) + 0x1_0000 * mem.byteAt(at + 2) + 0x100_0000 * mem.byteAt(at + 3);
    } else {
      var at := (address + 8 * i) % TWO64;
      p := mem.byteAt(at) + 0x100 * mem.byteAt(at + 1) + 0x1_0000 * mem.byteAt(at + 2) + 0x100_0000 * mem.byteAt(at + 3)
           + 0x1_0000_0000 * (mem.byteAt(at + 4) + 0x100 * mem.byteAt(at + 5)
                              + 0x1_0000 * mem.byteAt(at + 6) + 0x100_0000 * mem.byteAt(at + 7));
    }
  }

  /** The reads made on the way: each slot and then its string, and the last slot. */
  lemma VectorReads(mem: Memory, address: u64, compat: bool, ps: seq<u64>)
    requires Vector(mem, address, compat, ps)
    ensures var made := ArgvReads(address, compat, Slots(mem, address, compat));
            && |made| == 2 * |ps| + (if |ps| < 128 then 1 else 0)
            && (forall i :: 0 <= i < |ps| ==>
                  && made[2 * i] == (if compat then Read((address + 4 * i) % TWO64, 4) else Read((address + 8 * i) % TWO64, 8))
                  && made[2 * i + 1] == Read(ps[i], 4096))
            && (|ps| < 128 ==>
                  made[2 * |ps|] == if compat then Read((address + 4 * |ps|) % TWO64, 4)
                                    else Read((address + 8 * |ps|) % TWO64, 8))
  {
    hide SlotAt, StringText, ElementReads, ElementCount, HoldsPointer, CannotRead;
    var slots := Slots(mem, address, compat);
    VectorCount(mem, address, compat, ps);
    ElementReadsAt(address, compat, slots[..|ps|]);
  }

  lemma {:induction false} ElementReadsAt(address: u64, compat: bool, elements: seq<Slot>)
    requires forall i :: 0 <= i < |elements| ==> elements[i].Pointer?
    ensures |ElementReads(address, compat, elements)| == 2 * |elements|
    ensures forall i :: 0 <= i < |elements| ==>
              && ElementReads(address, compat, elements)[2 * i] == SlotRead(address, compat, i)
              && ElementReads(address, compat, elements)[2 * i + 1] == Read(elements[i].address, 4096)
  {
    hide SlotRead;
    if elements != [] {
      ElementReadsAt(address, compat, elements[..|elements| - 1]);
    }
  }

  // -------------------------------------------- what the printed text tells

  predicate HasSuffix(s: string, suffix: string) {
    |suffix| <= |s| && s[|s| - |suffix|..] == suffix
  }

  /** Does not end in a bracket, and in a period only as part of an ellipsis
      right after a closing quote. */
  predicate EndsLikeString(t: string) {
    |t| > 0 && t[|t| - 1] != ']' && (t[|t| - 1] == '.' ==> |t| >= 5 && t[|t| - 4] == '"')
  }

  lemma StringEnd(mem: Memory, address: u64)
    ensures EndsLikeString(StringText(mem, address))
  {
    var t, r := StringText(mem, address), mem.Fetch(address, STRING_LIMIT);
    if r.Empty() {
      assert t == "0x" + Numeral(address, 16);
      assert IsDigit(t[|t| - 1], 16);
    } else {
      var q := Quoted(UpToNul(r.bytes));
      assert q[|q| - 1] == '"' && |q| >= 2;
      assert t == q + if 0 in r.bytes then "" else "...";
    }
  }

  lemma JoinEnd(parts: seq<string>)
    requires parts != []
    ensures HasSuffix(Join(", ", parts), parts[|parts| - 1])
  {
  }

  lemma NotCut(text: string)
    requires |text| < 6 || text[|text| - 2] != '.' || text[|text| - 5] != ' '
    ensures !HasSuffix(text, ", ...]")
  {
    assert |text| >= 6 ==> text[|text| - 6..][4] == text[|text| - 2] && text[|text| - 6..][1] == text[|text| - 5];
  }

  /** A list closed by a plain bracket never looks like a cut one. */
  lemma PlainClose(strings: seq<string>)
    requires strings == [] || EndsLikeString(strings[|strings| - 1])
    ensures !HasSuffix("[" + Join(", ", strings) + "]", ", ...]")
  {
    if strings == [] {
      NotCut("[" + "" + "]");
    } else {
      JoinEnd(strings);
      PlainCloseBody(Join(", ", strings), strings[|strings| - 1]);
    }
  }

  lemma PlainCloseBody(body: string, last: string)
    requires EndsLikeString(last) && HasSuffix(body, last)
    ensures !HasSuffix("[" + body + "]", ", ...]")
  {
    var text := "[" + body + "]";
    assert last == body[|body| - |last|..];
    assert text[|text| - 2] == body[|body| - 1] == last[|last| - 1];
    if last[|last| - 1] == '.' {
      assert text[|text| - 5] == body[|body| - 4] == last[|last| - 4];
    }
    NotCut(text);
  }

  /** print_argv's text tells how the walk ended: a bare address if and only if
      the first slot is unreadable, ", ...]" if and only if some slot was read but
      no NULL was reached, and otherwise a plain bracket. */
  lemma ArgvEnding(mem: Memory, address: u64, compat: bool)
    ensures var slots := Slots(mem, address, compat);
            var text := ArgvText(address, slots);
            && (text == Hex(address) <==> slots[0].Unreadable?)
            && (HasSuffix(text, ", ...]") <==> !slots[0].Unreadable? && !EndsInNull(slots))
            && (HasSuffix(text, "]") && !HasSuffix(text, ", ...]") <==> EndsInNull(slots))
  {
    hide Hex, StringText, ElementStrings, Join;
    var slots := Slots(mem, address, compat);
    HexEnd(address);
    HexStart(address);
    if !slots[0].Unreadable? {
      var n := ElementCount(slots);
      var strings := ElementStrings(slots[..n]);
      var list := "[" + Join(", ", strings);
      assert ArgvText(address, slots) == list + if EndsInNull(slots) then "]" else ", ...]";
      if EndsInNull(slots) {
        if n > 0 {
          StringEnd(mem, slots[n - 1].address);
        }
        PlainClose(strings);
      } else {
        CutClose(list);
      }
    }
  }

  lemma CutClose(list: string)
    ensures HasSuffix(list + ", ...]", ", ...]")
  {
  }

  lemma HexStart(n: nat)
    ensures Hex(n)[0] == '0'
  {
  }

  lemma HexEnd(n: nat)
    ensures !HasSuffix(Hex(n), "]") && !HasSuffix(Hex(n), ", ...]")
  {
    var t := Hex(n);
    assert IsDigit(t[|t| - 1], 16);
  }
}
