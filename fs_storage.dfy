/** The filesystem storage service: each namespace is a directory under the
    base directory, and each entry is a file in it holding raw bytes. */
module FsStorage {
  import opened StorageTypes

  /** The values of this service's StorageNamespace enum (ROOMS and FILES are
      commented out there). */
  const DeclaredNamespaces: seq<Namespace> := [SCENES]

  /** The suffix listFiles keeps. */
  const PngSuffix: string := ".png"

  /** JavaScript's String.prototype.endsWith. */
  predicate EndsWith(s: string, suffix: string)
  {
    |suffix| <= |s| && s[|s| - |suffix|..] == suffix
  }

  /** File names that path.join resolves to the namespace directory itself
      or to the base directory, not to a file inside the namespace. */
  predicate DenotesDirectory(name: string)
  {
    name == "" || name == "." || name == ".."
  }

  /** File names that path.join resolves to the namespace path itself,
      base directory plus namespace name. */
  predicate DenotesNamespacePath(name: string)
  {
    name == "" || name == "."
  }

  /** A name a directory listing can contain: one path segment that is
      neither empty nor "." nor "..", without a NUL character. */
  predicate PlainName(name: string)
  {
    '/' !in name && '\0' !in name && !DenotesDirectory(name)
  }

  /** Whether writeFileSync succeeds, barring an I/O error. Node's fs throws
      for a path holding a NUL character. Inside an existing namespace
      directory the name must denote a file there. When the namespace
      directory is missing, only a name that resolves to the namespace path
      itself can be written: a regular file of that name is created or
      overwritten directly in the base directory. */
  predicate Writable(t: Tree<seq<byte>>, ns: Namespace, name: string)
  {
    '\0' !in name &&
    if ns in t then !DenotesDirectory(name) else DenotesNamespacePath(name)
  }

  /** Every file in every namespace directory has a plain name. */
  ghost predicate WellFormed(t: Tree<seq<byte>>)
  {
    forall ns | ns in t :: forall name | name in t[ns] :: PlainName(name)
  }

  /** One pass of readdirSync over a namespace directory, in whatever order
      it yields the names: every file exactly once. */
  method ReadDir(dir: map<string, seq<byte>>) returns (names: seq<string>)
    ensures NoDuplicates(names)
    ensures forall n :: n in names <==> n in dir
    ensures |names| == |dir|
  {
    names := [];
    var rest := dir.Keys;
    while rest != {}
      invariant rest <= dir.Keys
      invariant forall n :: n in names <==> n in dir && n !in rest
      invariant NoDuplicates(names)
      invariant |names| + |rest| == |dir|
      decreases rest
    {
      var n :| n in rest;
      names := names + [n];
      rest := rest - {n};
    }
  }

  /** What readdir(...).filter(file => file.endsWith('.png')) keeps. */
  function PngFiles(names: seq<string>): (r: seq<string>)
    ensures forall n :: n in r <==> n in names && EndsWith(n, PngSuffix)
    ensures NoDuplicates(names) ==> NoDuplicates(r)
  {
    if names == [] then []
    else if EndsWith(names[0], PngSuffix) then
      var rest := PngFiles(names[1..]);
      assert NoDuplicates(names) ==> names[0] !in names[1..];
      [names[0]] + rest
    else PngFiles(names[1..])
  }

  /** The image files stored in namespace ns. */
  function PngNames(t: Tree<seq<byte>>, ns: Namespace): set<string>
  {
    set n | n in KeysOf(t, ns) && EndsWith(n, PngSuffix)
  }

  /** Saving a file adds it to the listing exactly when it is an image, and
      leaves every other namespace's listing alone. */
  lemma PngNamesAfterPut(t: Tree<seq<byte>>, ns: Namespace, name: string, data: seq<byte>, other: Namespace)
    requires ns in t
    ensures PngNames(Put(t, ns, name, data), other) ==
      if other == ns && EndsWith(name, PngSuffix) then PngNames(t, ns) + {name} else PngNames(t, other)
  {
  }

  /** Deleting a file takes it out of the listing and nothing else. */
  lemma PngNamesAfterRemove(t: Tree<seq<byte>>, ns: Namespace, name: string, other: Namespace)
    requires ns in t
    ensures PngNames(Remove(t, ns, name), other) ==
      if other == ns then PngNames(t, ns) - {name} else PngNames(t, other)
  {
  }

  class StorageService {
    /** The namespace directories under the base directory and the files
        they hold. */
    var dirs: Tree<seq<byte>>
    /** Regular files directly in the base directory whose name is that of
        a namespace. Such a file stands where the namespace directory would. */
    var looseFiles: map<Namespace, seq<byte>>

    ghost predicate Valid()
      reads this
    {
      WellFormed(dirs) && dirs.Keys !! looseFiles.Keys
    }

    /** What reading the path of (ns, name) yields: a loose file for a name
        that resolves to the namespace path, otherwise the file inside the
        namespace directory, if any. */
    function Read(ns: Namespace, name: string): Option<seq<byte>>
      reads this
    {
      if ns in looseFiles && DenotesNamespacePath(name) then Some(looseFiles[ns])
      else Lookup(dirs, ns, name)
    }

    /** Ensures a directory exists for every value of the enum: disk and
        loose are what the base directory holds beforehand, and values is
        Object.values(StorageNamespace). An existing directory keeps its
        files; a missing path gets an empty directory; a loose file in
        the way exists, so no directory is made there. */
    constructor (disk: Tree<seq<byte>>, loose: map<Namespace, seq<byte>>, values: seq<Namespace>)
      requires WellFormed(disk) && disk.Keys !! loose.Keys
      ensures Valid()
      ensures looseFiles == loose
      ensures dirs.Keys == disk.Keys + ((set i | 0 <= i < |values| :: values[i]) - loose.Keys)
      ensures forall ns | ns in disk :: dirs[ns] == disk[ns]
      ensures forall ns | ns in dirs && ns !in disk :: dirs[ns] == map[]
    {
      var d := disk;
      for i := 0 to |values|
        invariant d.Keys == disk.Keys + ((set j | 0 <= j < i :: values[j]) - loose.Keys)
        invariant forall ns | ns in disk :: d[ns] == disk[ns]
        invariant forall ns | ns in d && ns !in disk :: d[ns] == map[]
      {
        if values[i] !in d && values[i] !in loose {
          d := d[values[i] := map[]];
        }
      }
      dirs := d;
      looseFiles := loose;
    }

    /** writeFileSync creates or truncates the file. It throws when the path
        cannot be a file (see Writable) or on an I/O error; the error is
        caught and false returned. */
    method SaveFile(ns: Namespace, filename: string, data: seq<byte>, ioError: bool) returns (ok: bool)
      requires Valid()
      requires '/' !in filename
      modifies this
      ensures Valid()
      ensures ok == (!ioError && Writable(old(dirs), ns, filename))
      ensures dirs == if ok && ns in old(dirs) then Put(old(dirs), ns, filename, data) else old(dirs)
      ensures looseFiles == if ok && ns !in old(dirs) then old(looseFiles)[ns := data] else old(looseFiles)
      ensures ok ==> Read(ns, filename) == Some(data)
    {
      if ioError || !Writable(dirs, ns, filename) {
        return false;
      }
      if ns in dirs {
        dirs := Put(dirs, ns, filename, data);
      } else {
        looseFiles := looseFiles[ns := data];
      }
      return true;
    }

    /** null when the path does not exist; a name that resolves to a
        directory exists but cannot be read, so it gives null too. */
    method GetFile(ns: Namespace, filename: string, ioError: bool) returns (r: Option<seq<byte>>)
      requires Valid()
      requires '/' !in filename
      ensures r == if ioError then None else Read(ns, filename)
    {
      if ns in looseFiles && DenotesNamespacePath(filename) {
        if ioError {
          return None;
        }
        return Some(looseFiles[ns]);
      }
      if ns !in dirs || filename !in dirs[ns] {
        return None;
      }
      if ioError {
        return None;
      }
      return Some(dirs[ns][filename]);
    }

    /** The .png files of the namespace; [] when its directory is missing,
        is a loose file, or cannot be read. */
    method ListFiles(ns: Namespace, ioError: bool) returns (names: seq<string>)
      requires Valid()
      ensures NoDuplicates(names)
      ensures forall n :: n in names <==> !ioError && n in PngNames(dirs, ns)
      ensures ns !in dirs ==> names == []
    {
      if ns !in dirs || ioError {
        return [];
      }
      var entries := ReadDir(dirs[ns]);
      names := PngFiles(entries);
    }

    /** true exactly when an existing file was unlinked. */
    method DeleteFile(ns: Namespace, filename: string, ioError: bool) returns (ok: bool)
      requires Valid()
      requires '/' !in filename
      modifies this
      ensures Valid()
      ensures ok == (!ioError && old(Read(ns, filename)).Some?)
      ensures dirs == if ok && ns in old(dirs) then Remove(old(dirs), ns, filename) else old(dirs)
      ensures looseFiles == if ok && ns !in old(dirs) then old(looseFiles) - {ns} else old(looseFiles)
      ensures !ioError ==> Read(ns, filename) == None
    {
      if ns in looseFiles && DenotesNamespacePath(filename) {
        if ioError {
          return false;
        }
        looseFiles := looseFiles - {ns};
        return true;
      }
      if ns in dirs && filename in dirs[ns] {
        if ioError {
          return false;
        }
        dirs := Remove(dirs, ns, filename);
        return true;
      }
      return false;
    }
  }

  /** After construction with the enum's values, the SCENES directory
      exists unless a loose file is in its place, and whatever it held
      before is still there. */
  method Startup(disk: Tree<seq<byte>>, loose: map<Namespace, seq<byte>>) returns (s: StorageService)
    requires WellFormed(disk) && disk.Keys !! loose.Keys
    ensures s.Valid()
    ensures SCENES in s.dirs <==> SCENES !in loose
    ensures SCENES in disk ==> s.dirs[SCENES] == disk[SCENES]
  {
    s := new StorageService(disk, loose, DeclaredNamespaces);
    assert DeclaredNamespaces[0] == SCENES;
  }

  /** A save followed by a read of the same file returns the saved bytes,
      and a second save of the same name replaces the first. */
  method SaveTwiceThenGet(s: StorageService, ns: Namespace, filename: string, first: seq<byte>, second: seq<byte>)
    returns (ok1: bool, ok2: bool, r: Option<seq<byte>>)
    requires s.Valid()
    requires '/' !in filename
    modifies s
    ensures ok1 == ok2 == Writable(old(s.dirs), ns, filename)
    ensures ok2 ==> r == Some(second)
    ensures !ok2 ==> r == old(s.Read(ns, filename)) && s.dirs == old(s.dirs) && s.looseFiles == old(s.looseFiles)
  {
    ok1 := s.SaveFile(ns, filename, first, false);
    ok2 := s.SaveFile(ns, filename, second, false);
    r := s.GetFile(ns, filename, false);
  }

  /** Deleting the same file twice gives true then false, after which
      reading it gives null. */
  method DeleteTwice(s: StorageService, ns: Namespace, filename: string)
    returns (first: bool, second: bool, r: Option<seq<byte>>)
    requires s.Valid()
    requires '/' !in filename
    modifies s
    ensures first == old(s.Read(ns, filename)).Some?
    ensures !second && r == None
    ensures s.dirs == if first && ns in old(s.dirs) then Remove(old(s.dirs), ns, filename) else old(s.dirs)
  {
    first := s.DeleteFile(ns, filename, false);
    second := s.DeleteFile(ns, filename, false);
    r := s.GetFile(ns, filename, false);
  }
}
