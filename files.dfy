/**
  The part of the POSIX filesystem the mail server touches, kept abstract: a
  map from directory path to the regular files in it, in the order readdir
  enumerates them.  A file path is a directory path, a '/', and a file name.
  The class FileSystem offers the calls the server makes (stat, mkdir,
  std::ofstream, std::ifstream, remove); whether mkdir, opening a file for
  writing or remove succeeds, and where a new file enters the enumeration,
  is decided by the environment and passed in.  Removing or rewriting a file
  leaves the order of the others as it was.
 */
module Files {

  /** One regular file of a directory. */
  datatype Entry = Entry(name: string, content: string)

  /** Directory path -> its regular files, in enumeration order. */
  type Dirs = map<string, seq<Entry>>

  function Names(es: seq<Entry>): seq<string>
  {
    seq(|es|, i requires 0 <= i < |es| => es[i].name)
  }

  /** A directory never holds two files of the same name. */
  predicate UniqueNames(es: seq<Entry>)
  {
    forall i, j :: 0 <= i < j < |es| ==> es[i].name != es[j].name
  }

  /** A file name never holds the path separator. */
  predicate PlainNames(es: seq<Entry>)
  {
    forall i :: 0 <= i < |es| ==> '/' !in es[i].name
  }

  predicate WellFormed(dirs: Dirs)
  {
    forall d :: d in dirs ==> UniqueNames(dirs[d]) && PlainNames(dirs[d])
  }

  /** Position of the file called `name`, or |es| when there is none. */
  function Find(es: seq<Entry>, name: string): (i: nat)
    ensures i <= |es|
    ensures i < |es| ==> es[i].name == name
    ensures forall j :: 0 <= j < i ==> es[j].name != name
  {
    if es == [] || es[0].name == name then 0 else 1 + Find(es[1..], name)
  }

  /**
    Where a new file lands among the `count` files of a directory: at
    position `at`, or last when `at` is past the end.  The filesystem
    decides `at` (a hashed directory places a name by its hash, tmpfs puts
    it first, a linear directory last or in a freed slot).
   */
  function Slot(at: nat, count: nat): (p: nat)
    ensures p <= count
    ensures at < count ==> p == at
  {
    if at < count then at else count
  }

  /** `s` with `x` inserted at position `p`. */
  function Inserted<T>(s: seq<T>, p: nat, x: T): (r: seq<T>)
    requires p <= |s|
    ensures |r| == |s| + 1 && r[p] == x
    ensures forall j :: 0 <= j < p ==> r[j] == s[j]
    ensures forall j :: p < j < |r| ==> r[j] == s[j - 1]
  {
    s[..p] + [x] + s[p..]
  }

  /**
    Writing `content` to `name`: an existing file is truncated and rewritten
    in place; a new one enters the enumeration at the slot `at` gives.
   */
  function Put(es: seq<Entry>, name: string, content: string, at: nat): seq<Entry>
  {
    var i := Find(es, name);
    if i < |es| then es[i := Entry(name, content)] else Inserted(es, Slot(at, |es|), Entry(name, content))
  }

  /** Removing the file called `name`, if there is one. */
  function Without(es: seq<Entry>, name: string): seq<Entry>
  {
    var i := Find(es, name);
    if i < |es| then es[..i] + es[i + 1..] else es
  }

  /** What reading the file called `name` yields: its content, or nothing when it cannot be opened. */
  function ContentOf(es: seq<Entry>, name: string): string
  {
    var i := Find(es, name);
    if i < |es| then es[i].content else ""
  }

  /** Position of the last '/' of a path, or -1 when it has none. */
  function LastSlash(p: string): (k: int)
    ensures -1 <= k < |p|
    ensures k >= 0 ==> p[k] == '/'
    ensures forall i :: k < i < |p| ==> p[i] != '/'
  {
    if p == [] then -1
    else if p[|p| - 1] == '/' then |p| - 1
    else LastSlash(p[..|p| - 1])
  }

  /**
    The directory part and the file name of a path: the text before and after
    its last '/'.  A path without '/' names a file of the directory "".
   */
  function SplitPath(p: string): (r: (string, string))
    ensures '/' !in r.1
    ensures '/' in p ==> p == r.0 + "/" + r.1
    ensures '/' !in p ==> r == ("", p)
  {
    var k := LastSlash(p);
    if k < 0 then ("", p)
    else
      assert p == p[..k] + "/" + p[k + 1..];
      (p[..k], p[k + 1..])
  }

  /** Splitting the path built from a directory and a plain file name gives them back. */
  lemma SplitJoin(dir: string, name: string)
    requires '/' !in name
    ensures SplitPath(dir + "/" + name) == (dir, name)
  {
    var p := dir + "/" + name;
    var k := LastSlash(p);
    assert p[|dir|] == '/';
    assert k == |dir|;
    assert p[..k] == dir && p[k + 1..] == name;
  }

  /** A directory read back entry by entry: the file at a position has that content. */
  lemma ContentAt(es: seq<Entry>, i: nat)
    requires UniqueNames(es) && i < |es|
    ensures Find(es, es[i].name) == i
    ensures ContentOf(es, es[i].name) == es[i].content
  {
  }

  /**
    After writing, the file holds exactly what was written: a rewritten file
    keeps its place and the others theirs; a new one is inserted at its slot.
   */
  lemma PutSpec(es: seq<Entry>, name: string, content: string, at: nat)
    requires UniqueNames(es) && PlainNames(es) && '/' !in name
    ensures UniqueNames(Put(es, name, content, at)) && PlainNames(Put(es, name, content, at))
    ensures ContentOf(Put(es, name, content, at), name) == content
    ensures name !in Names(es) ==> Put(es, name, content, at) == Inserted(es, Slot(at, |es|), Entry(name, content))
    ensures name in Names(es) ==> |Put(es, name, content, at)| == |es| && Names(Put(es, name, content, at)) == Names(es)
    ensures name in Names(es) ==>
              forall j :: 0 <= j < |es| && es[j].name != name ==> Put(es, name, content, at)[j] == es[j]
  {
    var i := Find(es, name);
    var r := Put(es, name, content, at);
    if i < |es| {
      assert name in Names(es) by { assert Names(es)[i] == name; }
      assert Names(r) == Names(es);
      ContentAt(r, i);
    } else {
      assert name !in Names(es);
      var p := Slot(at, |es|);
      InsertedUnique(es, p, Entry(name, content));
      InsertedPlain(es, p, Entry(name, content));
      ContentAt(r, p);
    }
  }

  /** Inserting a file whose name is new keeps the names of a directory distinct. */
  lemma InsertedUnique(es: seq<Entry>, p: nat, e: Entry)
    requires UniqueNames(es) && p <= |es| && e.name !in Names(es)
    ensures UniqueNames(Inserted(es, p, e))
  {
    var r := Inserted(es, p, e);
    forall a, b | 0 <= a < b < |r| ensures r[a].name != r[b].name {
      if a != p && b != p {
        assert r[a] == es[if a < p then a else a - 1];
        assert r[b] == es[if b < p then b else b - 1];
      } else if a == p {
        assert Names(es)[b - 1] == r[b].name;
      } else {
        assert Names(es)[a] == r[a].name;
      }
    }
  }

  lemma InsertedPlain(es: seq<Entry>, p: nat, e: Entry)
    requires PlainNames(es) && p <= |es| && '/' !in e.name
    ensures PlainNames(Inserted(es, p, e))
  {
    var r := Inserted(es, p, e);
    forall j | 0 <= j < |r| ensures '/' !in r[j].name {
      if j != p {
        assert r[j] == es[if j < p then j else j - 1];
      }
    }
  }

  /** The names after an insertion: the new name at its slot, the others around it. */
  lemma NamesInserted(es: seq<Entry>, p: nat, e: Entry)
    requires p <= |es|
    ensures Names(Inserted(es, p, e)) == Inserted(Names(es), p, e.name)
  {
  }

  /** A listed name is found. */
  lemma FindNamed(es: seq<Entry>, name: string)
    requires name in Names(es)
    ensures Find(es, name) < |es| && es[Find(es, name)].name == name
  {
  }

  /** Removing the file at position i leaves the others, in the same order. */
  lemma WithoutAt(es: seq<Entry>, i: nat)
    requires UniqueNames(es) && PlainNames(es) && i < |es|
    ensures Without(es, es[i].name) == es[..i] + es[i + 1..]
    ensures UniqueNames(Without(es, es[i].name)) && PlainNames(Without(es, es[i].name))
    ensures es[i].name !in Names(Without(es, es[i].name))
  {
    ContentAt(es, i);
    RemovedUnique(es, i);
    RemovedPlain(es, i);
  }

  /** The entries left after dropping position i keep distinct names, none of them the dropped one. */
  lemma RemovedUnique(es: seq<Entry>, i: nat)
    requires UniqueNames(es) && i < |es|
    ensures UniqueNames(es[..i] + es[i + 1..])
    ensures es[i].name !in Names(es[..i] + es[i + 1..])
  {
    var r := es[..i] + es[i + 1..];
    forall a, b | 0 <= a < b < |r| ensures r[a].name != r[b].name {
      assert r[a] == es[if a < i then a else a + 1];
      assert r[b] == es[if b < i then b else b + 1];
    }
    forall j | 0 <= j < |r| ensures Names(r)[j] != es[i].name {
      assert r[j] == es[if j < i then j else j + 1];
    }
  }

  lemma RemovedPlain(es: seq<Entry>, i: nat)
    requires PlainNames(es) && i < |es|
    ensures PlainNames(es[..i] + es[i + 1..])
  {
    var r := es[..i] + es[i + 1..];
    forall j | 0 <= j < |r| ensures '/' !in r[j].name {
      assert r[j] == es[if j < i then j else j + 1];
    }
  }

  /** Replacing one directory by well-formed entries keeps the whole filesystem well formed. */
  lemma WellFormedUpdate(dirs: Dirs, d: string, es: seq<Entry>)
    requires WellFormed(dirs) && UniqueNames(es) && PlainNames(es)
    ensures WellFormed(dirs[d := es])
  {
  }

  // ---------------------------------------------------------------------------
  // The calls, as effects on the map

  /** mkdir(path) succeeds when the environment lets it and nothing of that name exists yet. */
  predicate MkdirSucceeds(dirs: Dirs, path: string, succeeds: bool)
  {
    succeeds && path !in dirs
  }

  /** std::ofstream(path) opens when the environment lets it and the directory part exists. */
  predicate OpensForWriting(dirs: Dirs, path: string, opens: bool)
  {
    opens && SplitPath(path).0 in dirs
  }

  /**
    The filesystem after writing `content` to `path`, or unchanged when the
    file did not open; a new file takes the enumeration slot `at`.
   */
  function WriteFile(dirs: Dirs, path: string, content: string, opens: bool, at: nat): Dirs
  {
    var (d, n) := SplitPath(path);
    if OpensForWriting(dirs, path, opens) then dirs[d := Put(dirs[d], n, content, at)] else dirs
  }

  /** remove(path) succeeds when the environment lets it and the file exists. */
  predicate RemoveSucceeds(dirs: Dirs, path: string, succeeds: bool)
  {
    var (d, n) := SplitPath(path);
    succeeds && d in dirs && n in Names(dirs[d])
  }

  function RemoveFile(dirs: Dirs, path: string, succeeds: bool): Dirs
  {
    var (d, n) := SplitPath(path);
    if RemoveSucceeds(dirs, path, succeeds) then dirs[d := Without(dirs[d], n)] else dirs
  }

  /** The whole content of the file at `path`; empty when it cannot be opened. */
  function ReadFile(dirs: Dirs, path: string): string
  {
    var (d, n) := SplitPath(path);
    if d in dirs then ContentOf(dirs[d], n) else ""
  }

  /** The mutable filesystem the server works on. */
  class FileSystem {
    var dirs: Dirs

    ghost predicate Valid()
      reads this
    {
      WellFormed(dirs)
    }

    constructor (initial: Dirs)
      requires WellFormed(initial)
      ensures Valid() && dirs == initial
    {
      dirs := initial;
    }

    /** stat(path) followed by S_ISDIR. */
    function IsDirectory(path: string): bool
      reads this
    {
      path in dirs
    }

    /** mkdir(path, 0777) == 0: a new, empty directory. */
    method Mkdir(path: string, succeeds: bool) returns (ok: bool)
      requires Valid()
      modifies this
      ensures Valid()
      ensures ok == MkdirSucceeds(old(dirs), path, succeeds)
      ensures dirs == if ok then old(dirs)[path := []] else old(dirs)
    {
      ok := succeeds && path !in dirs;
      if ok {
        dirs := dirs[path := []];
      }
    }

    /** std::ofstream out(path); out << content: truncates or creates the file. */
    method Write(path: string, content: string, opens: bool, at: nat) returns (ok: bool)
      requires Valid()
      modifies this
      ensures Valid()
      ensures ok == OpensForWriting(old(dirs), path, opens)
      ensures dirs == WriteFile(old(dirs), path, content, opens, at)
    {
      var (d, n) := SplitPath(path);
      ok := opens && d in dirs;
      if ok {
        PutSpec(dirs[d], n, content, at);
        WellFormedUpdate(dirs, d, Put(dirs[d], n, content, at));
        dirs := dirs[d := Put(dirs[d], n, content, at)];
      }
    }

    /** remove(path) == 0. */
    method Remove(path: string, succeeds: bool) returns (ok: bool)
      requires Valid()
      modifies this
      ensures Valid()
      ensures ok == RemoveSucceeds(old(dirs), path, succeeds)
      ensures dirs == RemoveFile(old(dirs), path, succeeds)
    {
      var (d, n) := SplitPath(path);
      ok := succeeds && d in dirs && n in Names(dirs[d]);
      if ok {
        FindNamed(dirs[d], n);
        WithoutAt(dirs[d], Find(dirs[d], n));
        WellFormedUpdate(dirs, d, Without(dirs[d], n));
        dirs := dirs[d := Without(dirs[d], n)];
      }
    }
  }
}
