/**
 * The file handler: it answers a GET for a path by opening the file of that
 * name under its base directory, after two guards (only GET is allowed, and
 * no path segment may be "..") and an existence check.
 *
 * The handler's only state is its base directory, fixed when it is made;
 * `handle` reads the file system and changes nothing, so it is a function
 * of the method, the path and the file system.
 */
module DirectoryHandler {
  import opened Strings

  // ---------------------------------------------------------------------
  // `String#split("/")`
  // ---------------------------------------------------------------------

  /** All fields of `s` between slashes, empty ones included. */
  function Fields(s: string): (r: seq<string>)
    ensures |r| >= 1
    decreases |s|
  {
    var (head, tail) := SplitAt(s, '/');
    if tail == [] then [head] else [head] + Fields(tail[1..])
  }

  /** Ruby's `split` drops the empty fields at the end. */
  function DropTrailingEmpty(fields: seq<string>): (r: seq<string>)
    ensures |r| <= |fields| && r == fields[..|r|]
    ensures forall k :: |r| <= k < |fields| ==> fields[k] == []
    ensures r == [] || r[|r| - 1] != []
  {
    if fields != [] && fields[|fields| - 1] == [] then DropTrailingEmpty(fields[..|fields| - 1]) else fields
  }

  /** `path.split("/")`. */
  function Split(s: string): seq<string> {
    DropTrailingEmpty(Fields(s))
  }

  /** `path.split("/").any? { |part| part == ".." }`. */
  predicate Traverses(path: string) {
    ".." in Split(path)
  }

  /** A non-empty field is in the split exactly when it is one of the fields. */
  lemma SplitMembers(s: string, x: string)
    requires x != []
    ensures x in Split(s) <==> x in Fields(s)
  {
    var f := Fields(s);
    var r := Split(s);
    if x in f {
      var k :| 0 <= k < |f| && f[k] == x;
      assert k < |r|;
      assert r[k] == x;
    }
  }

  /** `".."` stands at `i` as a whole segment: slash or start before it, slash or end after it. */
  predicate DotDotAt(s: string, i: int) {
    && 0 <= i && i + 2 <= |s| && s[i] == '.' && s[i + 1] == '.'
    && (i == 0 || s[i - 1] == '/')
    && (i + 2 == |s| || s[i + 2] == '/')
  }

  /** Splitting at the first slash: the first field, then the fields after it. */
  lemma FieldsOfCut(a: string, b: string)
    requires '/' !in a
    ensures Fields(a + "/" + b) == [a] + Fields(b)
    ensures Fields(a) == [a]
  {
    SplitAtUnique(a, "/" + b, '/');
    assert a + "/" + b == a + ("/" + b);
    assert ("/" + b)[1..] == b;
    SplitAtUnique(a, [], '/');
    assert a + [] == a;
  }

  /** Where a path cut at its first slash keeps its characters. */
  lemma CutIndex(head: string, rest: string)
    ensures var path := head + "/" + rest;
      && |path| == |head| + 1 + |rest|
      && (forall j :: 0 <= j < |head| ==> path[j] == head[j])
      && path[|head|] == '/'
      && (forall j :: 0 <= j < |rest| ==> path[|head| + 1 + j] == rest[j])
  {
  }

  /** A ".." segment of the part after the first slash is one of the whole path, shifted. */
  lemma DotDotAfterCut(head: string, rest: string, i: int)
    requires DotDotAt(rest, i)
    ensures DotDotAt(head + "/" + rest, i + |head| + 1)
  {
    CutIndex(head, rest);
  }

  /** A ".." segment of the whole path lies after the first slash, or is the first field. */
  lemma DotDotBeforeCut(head: string, rest: string, i: int)
    requires '/' !in head && DotDotAt(head + "/" + rest, i)
    ensures (i == 0 && head == "..") || (i > |head| && DotDotAt(rest, i - |head| - 1))
  {
    var path := head + "/" + rest;
    var n := |head| + 1;
    CutIndex(head, rest);
    if i < n {
      if i > 0 {
        assert false;
      }
      if i + 2 < |head| {
        assert false;
      }
      assert head == head[i..i + 2];
    } else {
      assert i != n - 1;
      var k := i - n;
      assert rest[k] == path[i] && rest[k + 1] == path[i + 1];
      if k > 0 {
        assert rest[k - 1] == path[i - 1];
      }
      if k + 2 < |rest| {
        assert rest[k + 2] == path[i + 2];
      }
    }
  }

  /** A path without slashes has a ".." segment only when it is "..". */
  lemma DotDotNoSlash(path: string)
    requires '/' !in path
    ensures (exists i :: DotDotAt(path, i)) <==> path == ".."
  {
    if exists i :: DotDotAt(path, i) {
      var i :| DotDotAt(path, i);
      if i > 0 {
        assert false;
      }
      if i + 2 < |path| {
        assert false;
      }
      assert path == path[i..i + 2];
    }
    if path == ".." {
      assert DotDotAt(path, 0);
    }
  }

  /** The guard's view of a path cut at its first slash: the first field, or the rest. */
  lemma TraversesOfCut(head: string, rest: string)
    requires '/' !in head
    ensures Traverses(head + "/" + rest) <==> head == ".." || Traverses(rest)
  {
    FieldsOfCut(head, rest);
    SplitMembers(head + "/" + rest, "..");
    SplitMembers(rest, "..");
  }

  /** The same cut, seen through ".." positions. */
  lemma DotDotOfCut(head: string, rest: string)
    requires '/' !in head
    ensures (exists i :: DotDotAt(head + "/" + rest, i)) <==> head == ".." || exists i :: DotDotAt(rest, i)
  {
    if exists i :: DotDotAt(rest, i) {
      var i :| DotDotAt(rest, i);
      DotDotAfterCut(head, rest, i);
    }
    if exists i :: DotDotAt(head + "/" + rest, i) {
      var i :| DotDotAt(head + "/" + rest, i);
      DotDotBeforeCut(head, rest, i);
    }
    if head == ".." {
      CutIndex(head, rest);
      assert DotDotAt(head + "/" + rest, 0);
    }
  }

  /** A path without slashes is rejected only when it is "..". */
  lemma TraversesNoSlash(path: string)
    requires '/' !in path
    ensures Traverses(path) <==> path == ".."
  {
    FieldsOfCut(path, []);
    SplitMembers(path, "..");
  }

  /**
   * The traversal guard rejects exactly the paths holding ".." as a whole
   * segment, at the start or after a slash and at the end or before a slash.
   */
  lemma {:induction false} TraversesIff(path: string)
    ensures Traverses(path) <==> exists i :: DotDotAt(path, i)
    decreases |path|
  {
    var (head, tail) := SplitAt(path, '/');
    if tail == [] {
      assert path == head;
      TraversesNoSlash(path);
      DotDotNoSlash(path);
    } else {
      var rest := tail[1..];
      assert path == head + "/" + rest;
      TraversesIff(rest);
      TraversesOfCut(head, rest);
      DotDotOfCut(head, rest);
    }
  }

  /** Rejected: ".." at the front, and chained in the middle. */
  lemma TraversalExamples()
    ensures Traverses("../x") && Traverses("a/../../x")
  {
    TraversalAtFront();
    TraversalInMiddle();
  }

  lemma TraversalAtFront()
    ensures Traverses("../x")
  {
    TraversesIff("../x");
    assert DotDotAt("../x", 0);
  }

  lemma TraversalInMiddle()
    ensures Traverses("a/../../x")
  {
    TraversesIff("a/../../x");
    assert DotDotAt("a/../../x", 2);
  }

  /** Accepted: segments that only look like "..". */
  lemma LookAlikeExamples()
    ensures !Traverses("...") && !Traverses("a..") && !Traverses("..a")
  {
    LookAlike("...");
    LookAlike("a..");
    LookAlike("..a");
  }

  lemma LookAlike(segment: string)
    requires '/' !in segment && segment != ".."
    ensures !Traverses(segment)
  {
    TraversesNoSlash(segment);
  }

  // ---------------------------------------------------------------------
  // `File.join(base_dir, path)`
  // ---------------------------------------------------------------------

  /** Where the run of slashes at the end of `s` starts (`|s|` when there is none). */
  function TrailingSlashes(s: string): (t: nat)
    ensures t <= |s|
    ensures forall j :: t <= j < |s| ==> s[j] == '/'
    ensures t == 0 || s[t - 1] != '/'
  {
    SlashRunStart(s, |s|)
  }

  /** Where the run of slashes that ends at `n` starts. */
  function SlashRunStart(s: string, n: nat): (t: nat)
    requires n <= |s|
    ensures t <= n
    ensures forall j :: t <= j < n ==> s[j] == '/'
    ensures t == 0 || s[t - 1] != '/'
  {
    if n > 0 && s[n - 1] == '/' then SlashRunStart(s, n - 1) else n
  }

  /** The base directory without its trailing slashes. */
  function Root(base: string): string {
    base[..TrailingSlashes(base)]
  }

  /**
   * `File.join(base, path)`: a path that starts with a slash replaces the
   * base's trailing slashes; otherwise one slash is put between them unless
   * the base already ends with one.
   */
  function FileJoin(base: string, path: string): string {
    var t := TrailingSlashes(base);
    if path != [] && path[0] == '/' then base[..t] + path
    else if t == |base| then base + "/" + path
    else base + path
  }

  /** `File.join` on a few pairs. */
  lemma FileJoinExamples()
    ensures FileJoin("a", "b") == "a/b"
    ensures FileJoin("a/", "b") == "a/b"
    ensures FileJoin("a", "/b") == "a/b"
    ensures FileJoin("a//", "/b") == "a/b"
    ensures FileJoin("a//", "b") == "a//b"
    ensures FileJoin("", "b") == "/b"
    ensures FileJoin("a", "") == "a/"
  {
    assert TrailingSlashes("a") == 1;
    assert TrailingSlashes("a/") == 1 by {
      assert "a/"[..1] == "a";
    }
    assert TrailingSlashes("a//") == 1 by {
      assert "a//"[..2] == "a/";
      assert "a/"[..1] == "a";
    }
  }

  predicate AllSlashes(s: string) {
    forall j :: 0 <= j < |s| ==> s[j] == '/'
  }

  /** One slash before a path adds one empty segment in front of its own. */
  lemma SlashBefore(rest: string)
    ensures Traverses("/" + rest) <==> Traverses(rest)
  {
    assert "/" + rest == [] + "/" + rest;
    FieldsOfCut([], rest);
    SplitMembers("/" + rest, "..");
    SplitMembers(rest, "..");
  }

  /** Slashes put before a path without ".." segments add only empty segments. */
  lemma {:induction false} SlashesKeepSegments(slashes: string, path: string)
    requires AllSlashes(slashes) && !Traverses(path)
    ensures !Traverses(slashes + path)
    decreases |slashes|
  {
    if slashes != [] {
      FirstSlash(slashes, path);
      SlashesKeepSegments(slashes[1..], path);
      SlashBefore(slashes[1..] + path);
    } else {
      assert slashes + path == path;
    }
  }

  /**
   * The joined path stays under the base: it is the base without trailing
   * slashes, one slash, and a remainder that has no ".." segment when the
   * requested path has none.
   */
  lemma FileJoinStaysUnderBase(base: string, path: string)
    requires !Traverses(path)
    ensures Beneath(Root(base), FileJoin(base, path))
  {
    if path != [] && path[0] == '/' {
      JoinAbsoluteBeneath(base, path);
    } else if TrailingSlashes(base) == |base| {
      JoinWithSlashBeneath(base, path);
    } else {
      JoinAfterSlashesBeneath(base, path);
    }
  }

  /** `p` is `root`, a slash, and a remainder without ".." segments. */
  predicate Beneath(root: string, p: string) {
    StartsWith(p, root + "/") && !Traverses(p[|root| + 1..])
  }

  lemma JoinAbsoluteBeneath(base: string, path: string)
    requires !Traverses(path) && path != [] && path[0] == '/'
    ensures Beneath(Root(base), FileJoin(base, path))
  {
    JoinAbsolute(base, path);
    SplitOffRoot(Root(base), path[1..]);
  }

  lemma JoinWithSlashBeneath(base: string, path: string)
    requires !Traverses(path) && (path == [] || path[0] != '/')
    requires TrailingSlashes(base) == |base|
    ensures Beneath(Root(base), FileJoin(base, path))
  {
    JoinWithSlash(base, path);
    SplitOffRoot(Root(base), path);
  }

  lemma JoinAfterSlashesBeneath(base: string, path: string)
    requires !Traverses(path) && (path == [] || path[0] != '/')
    requires TrailingSlashes(base) < |base|
    ensures Beneath(Root(base), FileJoin(base, path))
  {
    JoinAfterSlashes(base, path);
    SplitOffRoot(Root(base), base[TrailingSlashes(base) + 1..] + path);
  }

  lemma JoinAbsolute(base: string, path: string)
    requires !Traverses(path) && path != [] && path[0] == '/'
    ensures FileJoin(base, path) == Root(base) + "/" + path[1..]
    ensures !Traverses(path[1..])
  {
    assert path == "/" + path[1..];
    SlashBefore(path[1..]);
  }

  lemma JoinWithSlash(base: string, path: string)
    requires path == [] || path[0] != '/'
    requires TrailingSlashes(base) == |base|
    ensures FileJoin(base, path) == Root(base) + "/" + path
  {
    assert Root(base) == base[..|base|] == base;
  }

  lemma JoinAfterSlashes(base: string, path: string)
    requires !Traverses(path) && (path == [] || path[0] != '/')
    requires TrailingSlashes(base) < |base|
    ensures var t := TrailingSlashes(base);
      FileJoin(base, path) == Root(base) + "/" + (base[t + 1..] + path)
    ensures !Traverses(base[TrailingSlashes(base) + 1..] + path)
  {
    var t := TrailingSlashes(base);
    CutTrailing(base, path);
    SlashesKeepSegments(base[t + 1..], path);
  }

  lemma FirstSlash(slashes: string, path: string)
    requires AllSlashes(slashes) && slashes != []
    ensures slashes + path == "/" + (slashes[1..] + path)
    ensures AllSlashes(slashes[1..])
  {
    assert slashes == "/" + slashes[1..];
  }

  /** A base that ends in slashes is its root, one slash, and the other slashes. */
  lemma CutTrailing(base: string, path: string)
    requires TrailingSlashes(base) < |base|
    ensures var t := TrailingSlashes(base);
      && base + path == Root(base) + "/" + (base[t + 1..] + path)
      && AllSlashes(base[t + 1..])
  {
    var t := TrailingSlashes(base);
    assert base == base[..t] + "/" + base[t + 1..] by {
      assert base == base[..t] + base[t..];
      assert base[t..] == "/" + base[t + 1..];
    }
  }

  lemma SplitOffRoot(root: string, remainder: string)
    ensures var j := root + "/" + remainder;
      StartsWith(j, root + "/") && j[|root| + 1..] == remainder
  {
    var j := root + "/" + remainder;
    assert j == (root + "/") + remainder;
  }

  // ---------------------------------------------------------------------
  // `handle`
  // ---------------------------------------------------------------------

  /** What the file system has at a path: a regular file with its contents, or a directory. */
  datatype Node = RegularFile(contents: string) | Directory

  /** What `File.exists?` and `File.open` find, for every path text. */
  type FileSystem = map<string, Node>

  /**
   * How `handle` ends: it raises MethodNotAllowed or NotFound, `File.join`
   * raises ArgumentError when the joined path holds a NUL character, or it
   * returns the file opened at `path`.
   */
  datatype Outcome = MethodNotAllowed | NotFound | NulInPath | Opened(path: string, node: Node)

  /** A `DirectoryHandler`; its base directory is set once, when it is made. */
  datatype DirectoryHandler = DirectoryHandler(baseDir: string) {

    /** `handle(method, path)`, the method given as its lower-case name. */
    function Handle(verb: string, path: string, fs: FileSystem): (r: Outcome)
      ensures r == MethodNotAllowed <==> verb != "get"
      ensures r == NotFound <==>
        verb == "get" && (Traverses(path) || ('\0' !in FileJoin(baseDir, path) && FileJoin(baseDir, path) !in fs))
      ensures r == NulInPath <==> verb == "get" && !Traverses(path) && '\0' in FileJoin(baseDir, path)
      ensures r.Opened? <==>
        verb == "get" && !Traverses(path) && '\0' !in FileJoin(baseDir, path) && FileJoin(baseDir, path) in fs
      ensures r.Opened? ==> r.path == FileJoin(baseDir, path) && r.node == fs[r.path]
    {
      if verb != "get" then MethodNotAllowed
      else if Traverses(path) then NotFound
      else
        var filepath := FileJoin(baseDir, path);
        if '\0' in filepath then NulInPath
        else if filepath !in fs then NotFound
        else Opened(filepath, fs[filepath])
    }

    /** Every method but GET is refused, whatever the path and the file system. */
    lemma MethodGuard(verb: string, path: string, fs: FileSystem, path': string, fs': FileSystem)
      requires verb != "get"
      ensures Handle(verb, path, fs) == Handle(verb, path', fs') == MethodNotAllowed
    {
    }

    /** A GET with a ".." segment is NotFound before the file system is consulted. */
    lemma TraversalGuard(path: string, fs: FileSystem, fs': FileSystem)
      requires exists i :: DotDotAt(path, i)
      ensures Handle("get", path, fs) == Handle("get", path, fs') == NotFound
    {
      TraversesIff(path);
    }

    /**
     * Whatever `handle` opens lies under the base directory: the base
     * without its trailing slashes, a slash, and a remainder with no ".."
     * segment; and it is what the file system has at that path.
     */
    lemma OpenedUnderBase(verb: string, path: string, fs: FileSystem)
      requires Handle(verb, path, fs).Opened?
      ensures var r := Handle(verb, path, fs);
        Beneath(Root(baseDir), r.path) && r.path in fs && r.node == fs[r.path]
    {
      FileJoinStaysUnderBase(baseDir, path);
    }

    /** `handle` looks at the file system only at the joined path. */
    lemma ConsultsOnlyJoinedPath(verb: string, path: string, fs: FileSystem, fs': FileSystem)
      requires FileJoin(baseDir, path) in fs <==> FileJoin(baseDir, path) in fs'
      requires FileJoin(baseDir, path) in fs ==> fs[FileJoin(baseDir, path)] == fs'[FileJoin(baseDir, path)]
      ensures Handle(verb, path, fs) == Handle(verb, path, fs')
    {
    }

    /** A GET for a regular file yields that file's contents. */
    lemma OpensFileContents(path: string, fs: FileSystem, contents: string)
      requires !Traverses(path) && '\0' !in FileJoin(baseDir, path)
      requires FileJoin(baseDir, path) in fs && fs[FileJoin(baseDir, path)] == RegularFile(contents)
      ensures Handle("get", path, fs) == Opened(FileJoin(baseDir, path), RegularFile(contents))
    {
    }
  }
}
