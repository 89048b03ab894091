/** The two things the tracer touches besides its own variables: its standard
    error stream and the stopped process. */
module Tracee {
  import opened Numerals

  type byte = x: int | 0 <= x < 256

  /** `fprintf(stderr, ...)`: everything written so far. */
  class Stderr {
    var text: string

    constructor ()
      ensures text == ""
    {
      text := "";
    }

    method Fputc(c: char)
      modifies this
      ensures text == old(text) + [c]
    {
      text := text + [c];
    }

    method Fputs(s: string)
      modifies this
      ensures text == old(text) + s
    {
      text := text + s;
    }
  }

  /** The tracee's memory at one stop: the bytes, and what the kernel answers to
      a read of `count` bytes at an address: a negative number for failure, or
      how many bytes it is willing to copy. */
  datatype Memory = Memory(byteAt: int -> byte, readable: (int, int) -> int) {

    /** The `n` bytes at `address`. */
    function Span(address: int, n: nat): (s: seq<byte>)
      ensures |s| == n && forall i :: 0 <= i < n ==> s[i] == byteAt(address + i)
    {
      seq<byte>(n, i => byteAt(address + i))
    }

    /** process_vm_readv: some prefix of the requested bytes, or nothing at all. */
    function Fetch(address: u64, count: nat): (r: Fetched)
      ensures r.Fault? <==> readable(address, count) < 0
      ensures r.Copied? ==> |r.bytes| == if readable(address, count) < count then readable(address, count) else count
      ensures r.Copied? ==> r.bytes == Span(address, |r.bytes|)
    {
      var n := readable(address, count);
      if n < 0 then Fault else Copied(Span(address, if n < count then n else count))
    }
  }

  datatype Fetched = Fault | Copied(bytes: seq<byte>) {
    /** No bytes to show: the read failed or copied nothing. */
    predicate Empty() {
      Fault? || bytes == []
    }
  }

  datatype Read = Read(address: u64, count: nat)

  /** The traced process. `readLog` and `resumes` record, in order, every memory
      read and every signal number handed to ptrace(PTRACE_SYSCALL). */
  class Process {
    var mem: Memory
    ghost var readLog: seq<Read>
    ghost var resumes: seq<int>

    constructor (mem: Memory)
      ensures this.mem == mem && readLog == [] && resumes == []
    {
      this.mem := mem;
      readLog, resumes := [], [];
    }

    method ReadTracee(address: u64, buf: array<byte>, count: nat) returns (size: int)
      requires count <= buf.Length
      modifies buf, `readLog
      ensures readLog == old(readLog) + [Read(address, count)]
      ensures match mem.Fetch(address, count)
              case Fault => size == -1 && buf[..] == old(buf[..])
              case Copied(bytes) => size == |bytes| && buf[..] == bytes + old(buf[|bytes|..])
    {
      readLog := readLog + [Read(address, count)];
      match mem.Fetch(address, count)
      case Fault =>
        size := -1;
      case Copied(bytes) =>
        size := |bytes|;
        forall i | 0 <= i < size {
          buf[i] := bytes[i];
        }
    }
  }
}
