/** ensure_directory_exists of server/src/storage/storage_manager.cpp over a file system of named nodes. */
module Directories {

  /** A node by its components from the root, or from the working directory. */
  datatype Node = Node(absolute: bool, components: seq<string>)

  /** Both separators split paths in the source; backslash also does for the system when windows holds. */
  predicate SourceSep(c: char) {
    c == '/' || c == '\\'
  }

  predicate SystemSep(c: char, windows: bool) {
    c == '/' || (windows && c == '\\')
  }

  /** Where the last component of s starts. */
  function LastStart(s: string, windows: bool): (i: nat)
    ensures i <= |s| && (i > 0 ==> SystemSep(s[i - 1], windows))
    ensures forall k :: i <= k < |s| ==> !SystemSep(s[k], windows)
  {
    if s == "" || SystemSep(s[|s| - 1], windows) then |s| else LastStart(s[..|s| - 1], windows)
  }

  /** The components the system sees: empty ones and "." do not count. */
  function Components(s: string, windows: bool): seq<string>
    decreases |s|
  {
    if s == "" then []
    else if SystemSep(s[|s| - 1], windows) then Components(s[..|s| - 1], windows)
    else
      var start := LastStart(s, windows);
      var before := if start == 0 then [] else Components(s[..start - 1], windows);
      if s[start..] == "." then before else before + [s[start..]]
  }

  /** Whether the last component is ".". */
  predicate EndsInDot(s: string, windows: bool) {
    s != "" && !SystemSep(s[|s| - 1], windows) && s[LastStart(s, windows)..] == "."
  }

  function PrefixNode(path: string, i: nat, windows: bool): Node
    requires i <= |path|
  {
    Node(path != "" && SystemSep(path[0], windows), Components(path[..i], windows))
  }

  function Parent(n: Node): Node
    requires n.components != []
  {
    Node(n.absolute, n.components[..|n.components| - 1])
  }

  /** The root and the working directory exist, no node is both a directory and a file, and parents are directories. */
  ghost predicate WellFormed(dirs: set<Node>, files: set<Node>) {
    && Node(true, []) in dirs && Node(false, []) in dirs && dirs !! files
    && forall n :: n in dirs + files && n.components != [] ==> Parent(n) in dirs
  }

  /** A file stands where a directory is needed to make the prefix of length i. */
  predicate InTheWay(files: set<Node>, windows: bool, path: string, i: nat)
    requires i <= |path|
  {
    var n := PrefixNode(path, i, windows);
    if EndsInDot(path[..i], windows) then n in files else n.components != [] && Parent(n) in files
  }

  /** The prefix of length i exists already or can be made. */
  predicate Passable(dirs: set<Node>, files: set<Node>, writable: bool, windows: bool, path: string, i: nat)
    requires i <= |path|
  {
    !InTheWay(files, windows, path, i) && (writable || PrefixNode(path, i, windows) in dirs + files)
  }

  class FileSystem {
    const windows: bool
    const writable: bool  // whether missing directories may be created
    var dirs: set<Node>
    var files: set<Node>

    ghost predicate Valid()
      reads this
    {
      WellFormed(dirs, files)
    }

    predicate Exists(n: Node)
      reads this
    {
      n in dirs || n in files
    }

    constructor (windows: bool, writable: bool, dirs: set<Node>, files: set<Node>)
      requires WellFormed(dirs, files)
      ensures Valid() && this.windows == windows && this.writable == writable && this.dirs == dirs && this.files == files
    {
      this.windows, this.writable, this.dirs, this.files := windows, writable, dirs, files;
    }

    /**
     * mkdir(2), for callers that make sure the parent is there. ok also stands for EEXIST, which a
     * file of that name gives as well. Under a file mkdir fails, and so it does for "." of a file.
     */
    method Mkdir(path: string) returns (ok: bool)
      requires Valid() && path != ""
      requires var n := PrefixNode(path, |path|, windows);
               if EndsInDot(path, windows) then Exists(n) else n.components != [] ==> Exists(Parent(n))
      modifies this`dirs
      ensures Valid()
      ensures ok <==> Passable(old(dirs), files, writable, windows, path, |path|)
      ensures var n := PrefixNode(path, |path|, windows); dirs == old(dirs) + (if ok && n !in files then {n} else {})
      ensures ok ==> Exists(PrefixNode(path, |path|, windows))
    {
      assert path[..|path|] == path;
      var n := PrefixNode(path, |path|, windows);
      if EndsInDot(path, windows) {
        return n in dirs;
      }
      if Exists(n) {
        return true;
      }
      if Parent(n) in files || !writable {
        return false;
      }
      dirs := dirs + {n};
      return true;
    }
  }

  predicate AnySepAt(path: string, i: nat) {
    i == |path| || (i < |path| && SourceSep(path[i]))
  }

  /** No component is "..", whichever separators count. */
  predicate NoParentSteps(path: string) {
    forall i, j :: 0 <= i <= j <= |path| && AnySepAt(path, j) && (i == 0 || SourceSep(path[i - 1])) ==> path[i..j] != ".."
  }

  /** The node before the last component of a prefix is one whose separator came earlier, or a root. */
  lemma ParentIsEarlier(path: string, i: nat, windows: bool)
    requires 0 < i <= |path|
    ensures var n := PrefixNode(path, i, windows);
            var root := Node(n.absolute, []);
            || n == root
            || (!EndsInDot(path[..i], windows) && Parent(n) == root)
            || (exists j :: 0 <= j < i && SystemSep(path[j], windows)
                  && (n == PrefixNode(path, j, windows)
                      || (!EndsInDot(path[..i], windows) && Parent(n) == PrefixNode(path, j, windows))))
  {
    var s := path[..i];
    if SystemSep(path[i - 1], windows) {
      assert s[..i - 1] == path[..i - 1];
      assert PrefixNode(path, i, windows) == PrefixNode(path, i - 1, windows);
    } else {
      var start := LastStart(s, windows);
      if start > 0 {
        var j := start - 1;
        assert s[..j] == path[..j] && SystemSep(path[j], windows);
        var n, m := PrefixNode(path, i, windows), PrefixNode(path, j, windows);
        if s[start..] != "." {
          assert n.components == m.components + [s[start..]];
          assert Parent(n) == m;
        } else {
          assert n == m;
        }
      } else if s[start..] != "." {
        assert PrefixNode(path, i, windows).components == [s[start..]];
      }
    }
  }

  lemma SamePrefix(path: string, i: nat, windows: bool)
    requires 0 < i <= |path|
    ensures PrefixNode(path[..i], i, windows) == PrefixNode(path, i, windows)
  {
    assert path[..i][..i] == path[..i];
  }

  lemma DotIsRoot(path: string, i: nat, windows: bool)
    requires i <= |path| && (path[..i] == "" || path[..i] == ".")
    ensures PrefixNode(path, i, windows).components == []
  {
    if path[..i] == "." {
      assert LastStart(".", windows) == 0 && "."[0..] == ".";
    }
  }

  /** The root and the working directory are always passed. */
  lemma RootIsPassed(dirs: set<Node>, files: set<Node>, writable: bool, windows: bool, path: string, i: nat)
    requires WellFormed(dirs, files) && i <= |path| && PrefixNode(path, i, windows).components == []
    ensures Passable(dirs, files, writable, windows, path, i)
    ensures PrefixNode(path, i, windows) in dirs
  {
    hide Components;
    var n := PrefixNode(path, i, windows);
    assert n == Node(true, []) || n == Node(false, []);
  }

  /**
   * ensure_directory_exists: mkdir is never called with a missing parent and only prefixes of the
   * path come into being. It succeeds exactly when no file stands in the way of a prefix and, without
   * permission to write, all of them exist. Then all of them exist, and the path is a directory
   * unless it names a file.
   */
  method EnsureDirectoryExists(fs: FileSystem, path: string) returns (ok: bool)
    requires fs.Valid() && NoParentSteps(path)
    modifies fs`dirs
    ensures fs.Valid() && old(fs.dirs) <= fs.dirs
    ensures forall n :: n in fs.dirs && n !in old(fs.dirs) ==>
              exists j :: 0 <= j <= |path| && AnySepAt(path, j) && n == PrefixNode(path, j, fs.windows)
    ensures ok <==> forall j :: 0 <= j <= |path| && AnySepAt(path, j) ==>
              Passable(old(fs.dirs), fs.files, fs.writable, fs.windows, path, j)
    ensures ok ==> forall j :: 0 <= j <= |path| && AnySepAt(path, j) ==> fs.Exists(PrefixNode(path, j, fs.windows))
    ensures ok ==> var n := PrefixNode(path, |path|, fs.windows); n in fs.dirs <==> n !in old(fs.files)
  {
    hide PrefixNode, Components, Passable;
    if path == "" {
      DotIsRoot(path, 0, fs.windows);
      RootIsPassed(fs.dirs, fs.files, fs.writable, fs.windows, path, 0);
      return true;
    }
    var partial := "";
    var i := 0;
    while i <= |path|
      invariant 0 <= i <= |path| + 1 && partial == path[..if i <= |path| then i else |path|]
      invariant fs.Valid() && old(fs.dirs) <= fs.dirs && (!fs.writable ==> fs.dirs == old(fs.dirs))
      invariant forall n :: n in fs.dirs && n !in old(fs.dirs) ==>
                  exists j :: 0 <= j <= |path| && AnySepAt(path, j) && n == PrefixNode(path, j, fs.windows)
      invariant forall j :: 0 <= j < i && AnySepAt(path, j) ==> fs.Exists(PrefixNode(path, j, fs.windows))
      invariant forall j :: 0 <= j < i && AnySepAt(path, j) ==>
                  Passable(old(fs.dirs), fs.files, fs.writable, fs.windows, path, j)
      decreases |path| + 1 - i
    {
      if i == |path| || SourceSep(path[i]) {
        assert path[0..i] == path[..i];
        assert path[0..i] != "..";
        if partial == "" || partial == "." || partial == ".." {
          DotIsRoot(path, i, fs.windows);
          RootIsPassed(old(fs.dirs), fs.files, fs.writable, fs.windows, path, i);
        } else {
          PassableLater(old(fs.dirs), fs.dirs, fs.files, fs.writable, fs.windows, path, i);
          var made := MakePrefix(fs, path, i);
          if !made {
            assert AnySepAt(path, i);
            return false;
          }
        }
      }
      if i < |path| {
        partial := partial + [path[i]];
      }
      i := i + 1;
    }
    assert AnySepAt(path, |path|);
    return true;
  }

  /** Directories made on the way change nothing for the prefixes still to come. */
  lemma PassableLater(before: set<Node>, now: set<Node>, files: set<Node>, writable: bool, windows: bool, path: string, i: nat)
    requires i <= |path| && (!writable ==> now == before)
    ensures Passable(now, files, writable, windows, path, i) <==> Passable(before, files, writable, windows, path, i)
  {
  }

  /** The mkdir call at the separator i. */
  method MakePrefix(fs: FileSystem, path: string, i: nat) returns (ok: bool)
    requires fs.Valid() && 0 < i <= |path|
    requires forall j :: 0 <= j < i && AnySepAt(path, j) ==> fs.Exists(PrefixNode(path, j, fs.windows))
    modifies fs`dirs
    ensures fs.Valid() && old(fs.dirs) <= fs.dirs && (!fs.writable ==> fs.dirs == old(fs.dirs))
    ensures forall n :: n in fs.dirs && n !in old(fs.dirs) ==> n == PrefixNode(path, i, fs.windows)
    ensures ok <==> Passable(old(fs.dirs), fs.files, fs.writable, fs.windows, path, i)
    ensures ok ==> fs.Exists(PrefixNode(path, i, fs.windows))
  {
    hide PrefixNode, Components, EndsInDot;
    SamePrefix(path, i, fs.windows);
    ParentIsEarlier(path, i, fs.windows);
    SamePassage(fs.dirs, fs.files, fs.writable, fs.windows, path, i);
    assert forall j :: 0 <= j < i && SystemSep(path[j], fs.windows) ==> AnySepAt(path, j);
    ghost var n := PrefixNode(path, i, fs.windows);
    assert n.components == [] ==> n in fs.dirs by { if n.components == [] { RootIsPassed(fs.dirs, fs.files, fs.writable, fs.windows, path, i); } }
    ok := fs.Mkdir(path[..i]);
  }

  lemma SamePassage(dirs: set<Node>, files: set<Node>, writable: bool, windows: bool, path: string, i: nat)
    requires 0 < i <= |path|
    ensures Passable(dirs, files, writable, windows, path[..i], i) <==> Passable(dirs, files, writable, windows, path, i)
  {
    hide PrefixNode, EndsInDot;
    assert path[..i][..i] == path[..i];
    SamePrefix(path, i, windows);
  }

  /** An existing file passes for the directory. */
  method OnAFile(windows: bool) returns (fs: FileSystem, ok: bool)
    ensures fresh(fs) && fs.Valid() && fs.windows == windows
    ensures ok && PrefixNode("x", 1, windows) !in fs.dirs
  {
    var x := Node(false, ["x"]);
    XIsX(windows);
    fs := new FileSystem(windows, true, {Node(true, []), Node(false, [])}, {x});
    assert forall i, j :: 0 <= i <= j <= 1 ==> |"x"[i..j]| < 2;
    ok := EnsureDirectoryExists(fs, "x");
  }

  lemma XIsX(windows: bool)
    ensures PrefixNode("x", 1, windows) == Node(false, ["x"]) && PrefixNode("x", 0, windows) == Node(false, [])
    ensures !EndsInDot("x"[..1], windows)
  {
    assert "x"[..1] == "x" && "x"[0..] == "x";
    assert LastStart("x", windows) == 0;
  }
}
