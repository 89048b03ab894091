/** The file system as run_baseline.py uses it: files change one step at a time, a
    crash may come between any two steps, and only what was synced is sure to be
    there afterwards. */
module Disk {
  import opened Numerals
  import opened Text

  datatype Path = Path(dir: seq<string>, name: string)

  /** A file, and whether its contents have reached the disk. */
  datatype File<C> = File(content: C, synced: bool)

  type Files<C> = map<Path, File<C>>

  datatype Action<C> =
    | Unlink(path: Path)
    | Create(path: Path, empty: C)      // open(..., "wb")
    | Write(path: Path, content: C)
    | Sync(path: Path)                  // flush and fsync
    | Replace(source: Path, path: Path) // os.replace
  {
    function Touched(): set<Path> {
      if Replace? then {source, path} else {path}
    }
  }

  function Apply<C>(files: Files<C>, a: Action<C>): Files<C> {
    match a
    case Unlink(p) => files - {p}
    case Create(p, empty) => files[p := File(empty, false)]
    case Write(p, content) => if p in files then files[p := File(content, false)] else files
    case Sync(p) => if p in files then files[p := File(files[p].content, true)] else files
    case Replace(q, p) => if q in files then (files - {q})[p := files[q]] else files
  }

  function Replay<C>(files: Files<C>, log: seq<Action<C>>): Files<C> {
    if log == [] then files else Apply(Replay(files, log[..|log| - 1]), log[|log| - 1])
  }

  lemma {:induction false} ReplayAppend<C>(files: Files<C>, a: seq<Action<C>>, b: seq<Action<C>>)
    ensures Replay(files, a + b) == Replay(Replay(files, a), b)
  {
    if b == [] {
      assert a + b == a;
    } else {
      var front, last := b[..|b| - 1], b[|b| - 1];
      assert (a + b)[..|a + b| - 1] == a + front;
      ReplayAppend(files, a, front);
    }
  }

  /** What a crash can leave: every file that is there, with its contents if they
      were synced and with anything otherwise. */
  ghost predicate CrashImage<C(!new)>(files: Files<C>, image: map<Path, C>) {
    && image.Keys == files.Keys
    && forall p :: p in files && files[p].synced ==> image[p] == files[p].content
  }

  function Touched<C>(log: seq<Action<C>>): set<Path> {
    if log == [] then {} else Touched(log[..|log| - 1]) + log[|log| - 1].Touched()
  }

  lemma {:induction false} TouchedAppend<C>(a: seq<Action<C>>, b: seq<Action<C>>)
    ensures Touched(a + b) == Touched(a) + Touched(b)
  {
    if b == [] {
      assert a + b == a;
    } else {
      var front, last := b[..|b| - 1], b[|b| - 1];
      assert (a + b)[..|a + b| - 1] == a + front;
      TouchedAppend(a, front);
    }
  }

  lemma TouchedPrefix<C>(log: seq<Action<C>>, k: nat)
    requires k <= |log|
    ensures Touched(log[..k]) <= Touched(log)
  {
    assert log == log[..k] + log[k..];
    TouchedAppend(log[..k], log[k..]);
  }

  ghost predicate SameAt<C(!new)>(a: Files<C>, b: Files<C>, p: Path) {
    (p in a <==> p in b) && (p in a ==> a[p] == b[p])
  }

  lemma {:induction false} UntouchedSame<C(!new)>(files: Files<C>, log: seq<Action<C>>, p: Path)
    requires p !in Touched(log)
    ensures SameAt(files, Replay(files, log), p)
  {
    if log != [] {
      UntouchedSame(files, log[..|log| - 1], p);
    }
  }

  // ---------------------------------------------------------- atomic_write_bytes

  function TempPath(path: Path, pid: nat): Path {
    Path(path.dir, "." + path.name + ".tmp-" + Dec(pid))
  }

  function AtomicWrite<C>(path: Path, data: C, pid: nat, empty: C): seq<Action<C>> {
    var temporary := TempPath(path, pid);
    [Create(temporary, empty), Write(temporary, data), Sync(temporary), Replace(temporary, path)]
  }

  /** The temporary file lies beside the destination, under a name of its own; it is made,
      written and synced before it takes the destination's place. */
  lemma AtomicSteps<C>(dir: seq<string>, name: string, data: C, pid: nat, empty: C)
    ensures var temporary := Path(dir, "." + name + ".tmp-" + Dec(pid));
            AtomicWrite(Path(dir, name), data, pid, empty)
            == [Create(temporary, empty), Write(temporary, data), Sync(temporary), Replace(temporary, Path(dir, name))]
  {
  }

  /** A file a temporary file can never be mistaken for. */
  predicate Lasting(path: Path) {
    path.name != "" && !IsDigit(path.name[|path.name| - 1], 10)
  }

  lemma TempNeverLasting(path: Path, pid: nat)
    ensures !Lasting(TempPath(path, pid))
  {
    var name := TempPath(path, pid).name;
    assert name[|name| - 1] == Dec(pid)[|Dec(pid)| - 1];
  }

  lemma AtomicWriteTouches<C>(path: Path, data: C, pid: nat, empty: C)
    ensures Touched(AtomicWrite(path, data, pid, empty)) == {TempPath(path, pid), path}
    ensures Touched(AtomicWrite(path, data, pid, empty)[..3]) == {TempPath(path, pid)}
  {
    var w := AtomicWrite(path, data, pid, empty);
    assert w[..3][..2] == [w[0], w[1]] && [w[0], w[1]][..1] == [w[0]] && [w[0]][..0] == [];
    assert Touched([w[0]]) == {TempPath(path, pid)};
    assert Touched([w[0], w[1]]) == {TempPath(path, pid)};
    assert Touched(w[..3]) == {TempPath(path, pid)};
  }

  lemma AtomicWriteResult<C(!new)>(files: Files<C>, path: Path, data: C, pid: nat, empty: C)
    requires Lasting(path)
    ensures var after := Replay(files, AtomicWrite(path, data, pid, empty));
            path in after && after[path] == File(data, true)
  {
    TempNeverLasting(path, pid);
    var w := AtomicWrite(path, data, pid, empty);
    assert w[..3][..2] == [w[0], w[1]] && [w[0], w[1]][..1] == [w[0]] && [w[0]][..0] == [];
    assert Replay(files, [w[0]]) == Apply(files, w[0]);
    assert Replay(files, [w[0], w[1]]) == Apply(Apply(files, w[0]), w[1]);
    assert Replay(files, w[..3]) == Apply(Apply(Apply(files, w[0]), w[1]), w[2]);
  }

  /** Crash atomicity: whenever the crash comes, the destination holds exactly what
      it held before, until the write is over, when it holds exactly the new data;
      every other lasting file is as before. */
  lemma AtomicAtEveryCrash<C(!new)>(files: Files<C>, path: Path, data: C, pid: nat, empty: C, k: nat, image: map<Path, C>)
    requires Lasting(path) && k <= 4
    requires path in files ==> files[path].synced
    requires CrashImage(Replay(files, AtomicWrite(path, data, pid, empty)[..k]), image)
    ensures k < 4 ==> (path in image <==> path in files) && (path in files ==> image[path] == files[path].content)
    ensures k == 4 ==> path in image && image[path] == data
    ensures forall p :: Lasting(p) && p != path ==>
              (p in image <==> p in files) && (p in files && files[p].synced ==> image[p] == files[p].content)
  {
    var w := AtomicWrite(path, data, pid, empty);
    var after := Replay(files, w[..k]);
    TempNeverLasting(path, pid);
    AtomicWriteTouches(path, data, pid, empty);
    if k == 4 {
      assert w[..4] == w;
      AtomicWriteResult(files, path, data, pid, empty);
    } else {
      assert w[..3][..k] == w[..k];
      TouchedPrefix(w[..3], k);
      UntouchedSame(files, w[..k], path);
    }
    TouchedPrefix(w, k);
    forall p | Lasting(p) && p != path
      ensures SameAt(files, after, p)
    {
      UntouchedSame(files, w[..k], p);
    }
  }

  // --------------------------------------------------------------- the live disk

  /** `log` is everything done to the disk since it held `start`. */
  class Drive<C> {
    var files: Files<C>
    ghost const start: Files<C>
    ghost var log: seq<Action<C>>

    constructor (files: Files<C>)
      ensures this.files == start == files && log == [] && Valid()
    {
      this.files, start, log := files, files, [];
    }

    ghost predicate Valid()
      reads this
    {
      files == Replay(start, log)
    }

    method Perform(a: Action<C>)
      requires Valid()
      modifies this
      ensures Valid() && log == old(log) + [a]
    {
      files := Apply(files, a);
      log := log + [a];
      assert log[..|log| - 1] == old(log);
    }

    /** Writes a temporary file next to the destination, syncs it and renames it. */
    method AtomicWriteBytes(path: Path, data: C, pid: nat, empty: C)
      requires Valid()
      modifies this
      ensures Valid() && log == old(log) + AtomicWrite(path, data, pid, empty)
    {
      hide Apply, Replay;
      var temporary := TempPath(path, pid);
      Perform(Create(temporary, empty));
      Perform(Write(temporary, data));
      Perform(Sync(temporary));
      Perform(Replace(temporary, path));
    }
  }
}
