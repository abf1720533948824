/** Listing and deleting stored files: worklist traversals of a directory tree.

    A path is the sequence of its component names below the storage root.  The file system is a
    finite tree without symbolic links: the paths of its files and of its directories. */
module Storage {
  import opened Wrappers
  import opened Lexicographic
  import opened PathNormalization

  type Path = seq<string>

  datatype StorageError = AbsolutePath | ParentReference | StorageRoot | NotADirectory

  datatype Tree = Tree(files: set<Path>, dirs: set<Path>) {
    /** Everything but the root lies in a directory, and nothing is both file and directory. */
    ghost predicate Valid() {
      && [] in dirs && files !! dirs
      && forall p | p in files + dirs && p != [] :: Parent(p) in dirs
    }
  }

  function Parent(p: Path): Path
    requires p != []
  {
    p[..|p| - 1]
  }

  predicate Exists(tree: Tree, p: Path) { p in tree.files || p in tree.dirs }

  function FilesBelow(tree: Tree, p: Path): set<Path> { set f | f in tree.files && p <= f }

  function DirsBelow(tree: Tree, p: Path): set<Path> { set d | d in tree.dirs && p <= d }

  predicate NoDuplicates<T(==)>(s: seq<T>) { forall i, j :: 0 <= i < j < |s| ==> s[i] != s[j] }

  ghost function Elements<T>(s: seq<T>): set<T> { set x | x in s }

  // ---------------------------------------------------------------------------
  // Naming a place in the tree
  // ---------------------------------------------------------------------------

  /** The components of a relative path: empty and "." segments do not count. */
  function Components(segments: seq<string>): Path {
    if segments == [] then []
    else (if segments[0] == "" || segments[0] == "." then [] else [segments[0]]) + Components(segments[1..])
  }

  predicate Absolute(input: string) { input != "" && input[0] == '/' }

  /** `safe_storage_path`: relative, and never upwards.  Its last test, that the joined path starts with
      the base, cannot fail here, since a path is already relative to the base. */
  function SafePath(input: string): Result<Path, StorageError> {
    if Absolute(input) then Err(AbsolutePath)
    else
      var components := Components(Split(input));
      if ".." in components then Err(ParentReference) else Ok(components)
  }

  lemma {:induction false} ComponentsResolve(stack: Path, segments: seq<string>)
    ensures ".." in Components(segments) <==> ".." in segments
    ensures ".." !in segments ==> Resolve(stack, segments) == Some(stack + Components(segments))
    decreases |segments|
  {
    assert stack + [] == stack;
    if segments != [] {
      var rest, here := segments[1..], if segments[0] == "" || segments[0] == "." then [] else [segments[0]];
      assert segments == [segments[0]] + rest;
      assert stack + here + Components(rest) == stack + Components(segments);
      ComponentsResolve(stack + here, rest);
    }
  }

  /** A path is accepted exactly if it is relative and has no ".." segment, even one that would stay
      inside; and then it names, below the storage root, what resolving its segments names. */
  lemma SafePathResolvesInside(input: string)
    ensures SafePath(input).Ok? <==> !Absolute(input) && ".." !in Split(input)
    ensures SafePath(input).Ok? ==> Resolve([], Split(input)) == Some(SafePath(input).value)
  {
    assert [] + Components(Split(input)) == Components(Split(input));
    ComponentsResolve([], Split(input));
  }

  /** The characters `str::trim` removes. */
  predicate Whitespace(c: char) {
    var n := c as int;
    || 0x09 <= n <= 0x0D || n == 0x20 || n == 0x85 || n == 0xA0 || n == 0x1680
    || 0x2000 <= n <= 0x200A || n == 0x2028 || n == 0x2029 || n == 0x202F || n == 0x205F || n == 0x3000
  }

  function Trim(s: string): string {
    if s == "" then ""
    else if Whitespace(s[0]) then Trim(s[1..])
    else if Whitespace(s[|s| - 1]) then Trim(s[..|s| - 1])
    else s
  }

  /** Trimming takes away the whitespace at both ends and nothing else. */
  lemma {:induction false} TrimKeepsTheMiddle(s: string) returns (i: nat, j: nat)
    ensures i <= j <= |s| && Trim(s) == s[i..j]
    ensures forall k :: 0 <= k < i || j <= k < |s| ==> Whitespace(s[k])
    ensures i < j ==> !Whitespace(s[i]) && !Whitespace(s[j - 1])
    decreases |s|
  {
    hide Whitespace;
    if s == "" {
      i, j := 0, 0;
    } else if Whitespace(s[0]) {
      i, j := TrimKeepsTheMiddle(s[1..]);
      assert s[1..][i..j] == s[i + 1..j + 1];
      assert forall k :: 1 <= k < |s| ==> s[k] == s[1..][k - 1];
      i, j := i + 1, j + 1;
    } else if Whitespace(s[|s| - 1]) {
      i, j := TrimKeepsTheMiddle(s[..|s| - 1]);
      assert s[..|s| - 1][i..j] == s[i..j];
      assert forall k :: 0 <= k < |s| - 1 ==> s[k] == s[..|s| - 1][k];
    } else {
      i, j := 0, |s|;
    }
  }

  /** The characters with the Unicode property White_Space, as `str::trim` takes them. */
  lemma WhitespaceCharacters(c: char)
    ensures Whitespace(c) <==>
            || c in "\U{0009}\U{000A}\U{000B}\U{000C}\U{000D} \U{0085}\U{00A0}\U{1680}"
            || c in "\U{2000}\U{2001}\U{2002}\U{2003}\U{2004}\U{2005}\U{2006}\U{2007}\U{2008}\U{2009}\U{200A}"
            || c in "\U{2028}\U{2029}\U{202F}\U{205F}\U{3000}"
  {
  }

  /** The guard of `delete_all_with_prefix`: some component other than ".". */
  predicate HasRealComponent(prefix: string) {
    Absolute(Trim(prefix)) || Components(Split(Trim(prefix))) != []
  }

  lemma {:induction false} ComponentsKeepCharacters(path: string, i: nat)
    requires i < |path| && Components(Split(path)) == []
    ensures path[i] == '.' || path[i] == '/'
    decreases |path|
  {
    NoComponentsMeansDots(Split(path));
    if path[i] != '/' {
      var k := SegmentOf(path, i);
    }
  }

  lemma {:induction false} NoComponentsMeansDots(segments: seq<string>)
    requires Components(segments) == []
    ensures forall k :: 0 <= k < |segments| ==> segments[k] == "" || segments[k] == "."
  {
    if segments != [] { NoComponentsMeansDots(segments[1..]); }
  }

  /** Every character but a slash belongs to a segment. */
  lemma {:induction false} SegmentOf(path: string, i: nat) returns (k: nat)
    requires i < |path| && path[i] != '/'
    ensures k < |Split(path)| && path[i] in Split(path)[k]
    decreases |path|
  {
    if i == 0 {
      k := 0;
      assert Split(path)[0][0] == path[0];
    } else {
      k := SegmentOf(path[1..], i - 1);
      if path[0] == '/' {
        assert Split(path)[k + 1] == Split(path[1..])[k];
        k := k + 1;
      } else if k == 0 {
        assert Split(path)[0] == [path[0]] + Split(path[1..])[0];
      } else {
        assert Split(path)[k] == Split(path[1..])[k];
      }
    }
  }

  lemma TrimKeepsSolidText(s: string)
    requires forall i :: 0 <= i < |s| ==> !Whitespace(s[i])
    ensures Trim(s) == s
  {
  }

  lemma DotAndSlashAreSolid(c: char)
    requires c == '.' || c == '/'
    ensures !Whitespace(c)
  {
  }

  lemma PathsWithoutComponentsAreSolid(path: string)
    requires Components(Split(path)) == []
    ensures forall i :: 0 <= i < |path| ==> !Whitespace(path[i])
  {
    hide Components, Split, Whitespace;
    forall i | 0 <= i < |path| ensures !Whitespace(path[i]) {
      ComponentsKeepCharacters(path, i);
      DotAndSlashAreSolid(path[i]);
    }
  }

  /** A prefix that passes the guard never resolves to the storage root, so no call can empty it. */
  lemma GuardedPrefixIsNotRoot(prefix: string)
    requires HasRealComponent(prefix) && SafePath(prefix).Ok?
    ensures SafePath(prefix).value != []
  {
    if SafePath(prefix).value == [] {
      PathsWithoutComponentsAreSolid(prefix);
      TrimKeepsSolidText(prefix);
    }
  }

  // ---------------------------------------------------------------------------
  // Specifications
  // ---------------------------------------------------------------------------

  /** A path that ends in "/" or "/." only ever names a directory: looking up "file/" fails. */
  predicate NamesDirectory(input: string) {
    var segments := Split(input);
    segments[|segments| - 1] == "" || segments[|segments| - 1] == "."
  }

  /** A checked path, and whether its spelling insists on a directory. */
  datatype Place = Place(path: Path, directoryOnly: bool)

  function PlaceOf(input: string): Result<Place, StorageError> {
    match SafePath(input)
    case Err(e) => Err(e)
    case Ok(p) => Ok(Place(p, NamesDirectory(input)))
  }

  /** `exists()` on the joined path. */
  predicate Found(tree: Tree, place: Place) {
    if place.directoryOnly then place.path in tree.dirs else Exists(tree, place.path)
  }

  /** `is_file()` on the joined path. */
  predicate IsFile(tree: Tree, place: Place) { !place.directoryOnly && place.path in tree.files }

  function Target(prefix: Option<string>): Result<Place, StorageError> {
    if prefix.Some? then PlaceOf(prefix.value) else Ok(Place([], false))
  }

  /** The set of paths `list` returns. */
  function Listing(tree: Tree, prefix: Option<string>): Result<set<Path>, StorageError> {
    match Target(prefix)
    case Err(e) => Err(e)
    case Ok(place) =>
      if !Found(tree, place) then Ok({})
      else if place.path in tree.files then Err(NotADirectory)
      else Ok(FilesBelow(tree, place.path))
  }

  /** The set of paths `delete_all_with_prefix` returns. */
  function Deletion(tree: Tree, prefix: string): Result<set<Path>, StorageError> {
    if !HasRealComponent(prefix) then Err(StorageRoot)
    else
      match PlaceOf(prefix)
      case Err(e) => Err(e)
      case Ok(place) => Ok(if Found(tree, place) then FilesBelow(tree, place.path) else {})
  }

  /** A listing is in the text order of the rendered paths. */
  predicate InTextOrder(paths: seq<Path>) {
    forall i, j :: 0 <= i < j < |paths| ==> AtMost(Join(paths[i]), Join(paths[j]))
  }

  /** How far a traversal from `root` has come: `visited` directories have been read, the `waiting`
      ones have been seen. */
  ghost predicate Frontier(tree: Tree, root: Path, waiting: set<Path>, visited: set<Path>) {
    && visited <= DirsBelow(tree, root) && waiting <= DirsBelow(tree, root) && waiting !! visited
    && root in visited + waiting
    && (forall d | d in visited + waiting :: d == root || (|d| > |root| && Parent(d) in visited))
    && (forall d | d in DirsBelow(tree, root) && |d| > |root| && Parent(d) in visited :: d in visited + waiting)
  }

  /** The files in directories read so far. */
  ghost function FilesIn(tree: Tree, root: Path, visited: set<Path>): set<Path> {
    set f | f in FilesBelow(tree, root) && |f| > |root| && Parent(f) in visited
  }

  function ChildDirs(tree: Tree, d: Path): set<Path> { set c | c in tree.dirs && c != [] && Parent(c) == d }

  function ChildFiles(tree: Tree, d: Path): set<Path> { set f | f in tree.files && f != [] && Parent(f) == d }

  /** Reading one directory moves it to the visited ones and puts its subdirectories in waiting. */
  lemma FrontierStep(tree: Tree, root: Path, waiting: set<Path>, visited: set<Path>, current: Path)
    requires tree.Valid() && Frontier(tree, root, waiting, visited) && current in waiting
    ensures current in DirsBelow(tree, root) && current !in visited
    ensures (waiting - {current}) !! ChildDirs(tree, current)
    ensures Frontier(tree, root, waiting - {current} + ChildDirs(tree, current), visited + {current})
  {
    var children := ChildDirs(tree, current);
    forall c | c in children ensures c in DirsBelow(tree, root) && c !in visited && c !in waiting && |c| > |root| {
      assert root <= current && current <= c;
    }
  }

  /** At the start only the root is waiting. */
  lemma FrontierStart(tree: Tree, root: Path)
    requires root in tree.dirs
    ensures Frontier(tree, root, Elements([root]), {}) && NoDuplicates([root])
    ensures FilesIn(tree, root, {}) == {}
  {
  }

  lemma NoElements<T>()
    ensures var none: seq<T> := []; NoDuplicates(none) && Elements(none) == {}
  {
  }

  lemma FilesInStep(tree: Tree, root: Path, visited: set<Path>, current: Path)
    requires current in DirsBelow(tree, root) && current !in visited
    ensures FilesIn(tree, root, visited + {current}) == FilesIn(tree, root, visited) + ChildFiles(tree, current)
    ensures FilesIn(tree, root, visited) !! ChildFiles(tree, current)
  {
    forall f | f in ChildFiles(tree, current) ensures f in FilesBelow(tree, root) && |f| > |root| {
      assert root <= current && current <= f;
    }
  }

  /** The tree once the files of the visited directories are gone. */
  ghost function Stripped(tree: Tree, root: Path, visited: set<Path>): Tree {
    tree.(files := tree.files - FilesIn(tree, root, visited))
  }

  lemma NothingStripped(tree: Tree, root: Path)
    ensures Stripped(tree, root, {}) == tree
  {
  }

  /** Deleting the files of one more directory, seen from the tree at the start. */
  lemma StripOneMore(tree: Tree, root: Path, visited: set<Path>, current: Path)
    requires tree.Valid() && current in DirsBelow(tree, root) && current !in visited
    ensures var now := Stripped(tree, root, visited);
            && now.Valid() && ChildFiles(now, current) == ChildFiles(tree, current)
            && ChildDirs(now, current) == ChildDirs(tree, current)
            && now.(files := now.files - ChildFiles(now, current)) == Stripped(tree, root, visited + {current})
  {
    FilesInStep(tree, root, visited, current);
  }

  /** When nothing is waiting, everything has been read. */
  lemma {:induction false} NothingWaiting(tree: Tree, root: Path, visited: set<Path>, d: Path)
    requires tree.Valid() && Frontier(tree, root, {}, visited) && d in DirsBelow(tree, root)
    ensures d in visited
    decreases |d|
  {
    if |d| > |root| {
      NothingWaiting(tree, root, visited, Parent(d));
    } else {
      assert d == root;
    }
  }

  lemma TraversalComplete(tree: Tree, root: Path, visited: set<Path>)
    requires tree.Valid() && root in tree.dirs && Frontier(tree, root, {}, visited)
    ensures FilesIn(tree, root, visited) == FilesBelow(tree, root)
  {
    forall f | f in FilesBelow(tree, root) ensures f in FilesIn(tree, root, visited) {
      assert |f| == |root| ==> f == root;
      assert root <= Parent(f);
      NothingWaiting(tree, root, visited, Parent(f));
    }
  }

  /** The part of the tree still to be read: the measure of both traversals. */
  ghost function Unread(tree: Tree, root: Path, visited: set<Path>): nat { |DirsBelow(tree, root) - visited| }

  lemma UnreadShrinks(tree: Tree, root: Path, visited: set<Path>, current: Path)
    requires current in DirsBelow(tree, root) && current !in visited
    ensures Unread(tree, root, visited + {current}) < Unread(tree, root, visited)
  {
    var before := DirsBelow(tree, root) - visited;
    assert DirsBelow(tree, root) - (visited + {current}) == before - {current};
  }

  lemma AppendElements<T>(a: seq<T>, b: seq<T>)
    requires NoDuplicates(a) && NoDuplicates(b) && Elements(a) !! Elements(b)
    ensures Elements(a + b) == Elements(a) + Elements(b) && NoDuplicates(a + b)
  {
    var s := a + b;
    forall i, j | 0 <= i < j < |s| ensures s[i] != s[j] {
      if j >= |a| && i < |a| { assert s[i] in Elements(a) && s[j] in Elements(b); }
    }
  }

  lemma PopElements<T>(a: seq<T>)
    requires a != [] && NoDuplicates(a)
    ensures a[|a| - 1] in Elements(a)
    ensures Elements(a[..|a| - 1]) == Elements(a) - {a[|a| - 1]} && NoDuplicates(a[..|a| - 1])
  {
    var init, last := a[..|a| - 1], a[|a| - 1];
    forall x | x in Elements(a) - {last} ensures x in init {
      var i :| 0 <= i < |a| && a[i] == x;
      assert init[i] == x;
    }
  }

  /** One more entry of a directory is dealt with: it joins the list of its kind. */
  lemma EntryStep<T>(seen: seq<T>, kind: set<T>, rest: set<T>, x: T)
    requires NoDuplicates(seen) && Elements(seen) == kind - rest && x in rest
    ensures x in kind ==> NoDuplicates(seen + [x]) && Elements(seen + [x]) == kind - (rest - {x})
    ensures x !in kind ==> Elements(seen) == kind - (rest - {x})
  {
    if x in kind {
      AppendElements(seen, [x]);
    } else {
      assert kind - rest == kind - (rest - {x});
    }
  }

  lemma NothingSeen<T>(a: set<T>, b: set<T>)
    ensures var none: seq<T> := []; NoDuplicates(none) && Elements(none) == a - (a + b) == b - (a + b)
  {
  }

  lemma RemoveOneMore<T>(all: set<T>, kind: set<T>, rest: set<T>, x: T)
    requires x in rest
    ensures x in kind ==> all - (kind - rest) - {x} == all - (kind - (rest - {x}))
    ensures x !in kind ==> kind - rest == kind - (rest - {x})
  {
  }

  lemma EntriesAreOfOneKind(tree: Tree, d: Path)
    requires tree.Valid()
    ensures ChildDirs(tree, d) <= tree.dirs && ChildFiles(tree, d) !! tree.dirs
  {
  }

  // ---------------------------------------------------------------------------
  // The traversals
  // ---------------------------------------------------------------------------

  /** `files.sort()`: by insertion, comparing the text of the paths. */
  method SortByText(paths: seq<Path>) returns (sorted: seq<Path>)
    ensures multiset(sorted) == multiset(paths) && InTextOrder(sorted)
  {
    sorted := [];
    for i := 0 to |paths|
      invariant multiset(sorted) == multiset(paths[..i]) && InTextOrder(sorted)
    {
      var k := 0;
      while k < |sorted| && AtMost(Join(sorted[k]), Join(paths[i]))
        invariant 0 <= k <= |sorted|
        invariant forall j :: 0 <= j < k ==> AtMost(Join(sorted[j]), Join(paths[i]))
      {
        k := k + 1;
      }
      InsertInOrder(sorted, k, paths[i]);
      assert paths[..i + 1] == paths[..i] + [paths[i]];
      assert sorted == sorted[..k] + sorted[k..];
      sorted := sorted[..k] + [paths[i]] + sorted[k..];
    }
    assert paths[..|paths|] == paths;
  }

  lemma LaterPathsFollow(sorted: seq<Path>, k: nat, p: Path, j: nat)
    requires InTextOrder(sorted) && k <= j < |sorted| && !AtMost(Join(sorted[k]), Join(p))
    ensures AtMost(Join(p), Join(sorted[j]))
  {
    hide Join, Less;
    LessTotal(Join(p), Join(sorted[k]));
    if k < j && Join(sorted[k]) != Join(sorted[j]) { LessTransitive(Join(p), Join(sorted[k]), Join(sorted[j])); }
  }

  lemma SortedByText(paths: seq<Path>)
    requires InTextOrder(paths)
    ensures forall i, j :: 0 <= i < j < |paths| ==> !Less(Join(paths[j]), Join(paths[i]))
  {
    hide Join, Less;
    forall i, j | 0 <= i < j < |paths| ensures !Less(Join(paths[j]), Join(paths[i])) {
      LessIrreflexive(Join(paths[i]));
      if Less(Join(paths[j]), Join(paths[i])) && Less(Join(paths[i]), Join(paths[j])) {
        LessTransitive(Join(paths[i]), Join(paths[j]), Join(paths[i]));
      }
    }
  }

  lemma InsertInOrder(sorted: seq<Path>, k: nat, p: Path)
    requires InTextOrder(sorted) && k <= |sorted|
    requires forall j :: 0 <= j < k ==> AtMost(Join(sorted[j]), Join(p))
    requires k < |sorted| ==> !AtMost(Join(sorted[k]), Join(p))
    ensures InTextOrder(sorted[..k] + [p] + sorted[k..])
  {
    hide Join, AtMost;
    var s := sorted[..k] + [p] + sorted[k..];
    forall i, j | 0 <= i < j < |s| ensures AtMost(Join(s[i]), Join(s[j])) {
      assert s[i] == if i < k then sorted[i] else if i == k then p else sorted[i - 1];
      assert s[j] == if j < k then sorted[j] else if j == k then p else sorted[j - 1];
      if i == k { LaterPathsFollow(sorted, k, p, j - 1); }
    }
  }

  lemma SameElements<T>(a: seq<T>, b: seq<T>)
    requires multiset(a) == multiset(b) && NoDuplicates(a)
    ensures Elements(a) == Elements(b) && NoDuplicates(b)
  {
    forall x ensures x in a <==> x in b {
      assert x in a <==> x in multiset(a);
      assert x in b <==> x in multiset(b);
    }
    if !NoDuplicates(b) {
      var i, j :| 0 <= i < j < |b| && b[i] == b[j];
      TwiceCountsTwo(b, i, j);
      CountsOnce(a, b[i]);
    }
  }

  lemma TwiceCountsTwo<T>(b: seq<T>, i: nat, j: nat)
    requires i < j < |b| && b[i] == b[j]
    ensures multiset(b)[b[i]] >= 2
  {
    assert b == b[..i] + [b[i]] + b[i + 1..j] + [b[j]] + b[j + 1..];
  }

  lemma {:induction false} CountsOnce<T>(a: seq<T>, x: T)
    requires NoDuplicates(a)
    ensures multiset(a)[x] <= 1
  {
    if a != [] {
      CountsOnce(a[1..], x);
      assert a == [a[0]] + a[1..];
      if a[0] == x { assert x !in a[1..]; }
    }
  }

  class LocalStorage {
    var tree: Tree

    /** `from_config` on a fresh directory: the root, and nothing in it. */
    constructor ()
      ensures tree.Valid() && tree.files == {} && tree.dirs == {[]}
    {
      tree := Tree({}, {[]});
    }

    /** `list`: every file below the place named by the prefix, once each, in text order. */
    method List(prefix: Option<string>) returns (r: Result<seq<Path>, StorageError>)
      requires tree.Valid()
      ensures match Listing(tree, prefix)
              case Err(e) => r == Err(e)
              case Ok(paths) => r.Ok? && Elements(r.value) == paths && NoDuplicates(r.value)
      ensures r.Ok? ==> forall i, j :: 0 <= i < j < |r.value| ==> !Less(Join(r.value[j]), Join(r.value[i]))
    {
      var target := Target(prefix);
      if target.Err? { return Err(target.error); }
      var root := target.value.path;
      if !Found(tree, target.value) { return Ok([]); }
      if root in tree.files { return Err(NotADirectory); }
      hide Frontier, FilesIn, NoDuplicates, Elements, ChildDirs, ChildFiles, Unread, DirsBelow, InTextOrder;
      FrontierStart(tree, root);
      NoElements<Path>();
      var stack, files := [root], [];
      ghost var visited := {};
      while stack != []
        invariant NoDuplicates(stack) && Frontier(tree, root, Elements(stack), visited)
        invariant NoDuplicates(files) && Elements(files) == FilesIn(tree, root, visited)
        decreases Unread(tree, root, visited)
      {
        var current := stack[|stack| - 1];
        PopElements(stack);
        FrontierStep(tree, root, Elements(stack), visited, current);
        FilesInStep(tree, root, visited, current);
        UnreadShrinks(tree, root, visited, current);
        stack := stack[..|stack| - 1];
        var subdirs, found := ReadDirectory(current);
        AppendElements(stack, subdirs);
        AppendElements(files, found);
        stack, files := stack + subdirs, files + found;
        visited := visited + {current};
      }
      TraversalComplete(tree, root, visited);
      var sorted := SortByText(files);
      SameElements(files, sorted);
      SortedByText(sorted);
      r := Ok(sorted);
    }

    /** The inner loop of `list`: the entries of one directory, in whatever order they come. */
    method ReadDirectory(d: Path) returns (subdirs: seq<Path>, found: seq<Path>)
      requires tree.Valid()
      ensures NoDuplicates(subdirs) && Elements(subdirs) == ChildDirs(tree, d)
      ensures NoDuplicates(found) && Elements(found) == ChildFiles(tree, d)
    {
      hide ChildDirs, ChildFiles;
      subdirs, found := [], [];
      var entries := ChildDirs(tree, d) + ChildFiles(tree, d);
      var rest := entries;
      EntriesAreOfOneKind(tree, d);
      while rest != {}
        invariant rest <= entries
        invariant NoDuplicates(subdirs) && Elements(subdirs) == ChildDirs(tree, d) - rest
        invariant NoDuplicates(found) && Elements(found) == ChildFiles(tree, d) - rest
        decreases |rest|
      {
        var path :| path in rest;
        EntryStep(subdirs, ChildDirs(tree, d), rest, path);
        EntryStep(found, ChildFiles(tree, d), rest, path);
        if path in tree.dirs {
          subdirs := subdirs + [path];
        } else {
          found := found + [path];
        }
        rest := rest - {path};
      }
    }

    /** `delete_all_with_prefix`: deletes every file below the place named by the prefix and returns
        each once.  `removable` is whether the final removal of the empty directories succeeds,
        which the program does not insist on. */
    method DeleteAllWithPrefix(prefix: string, removable: bool) returns (r: Result<seq<Path>, StorageError>)
      requires tree.Valid()
      modifies this
      ensures tree.Valid()
      ensures match Deletion(old(tree), prefix)
              case Err(e) => r == Err(e) && tree == old(tree)
              case Ok(paths) => r.Ok? && Elements(r.value) == paths && NoDuplicates(r.value)
                                && tree == AfterDeletion(old(tree), prefix, removable)
    {
      if !HasRealComponent(prefix) { return Err(StorageRoot); }
      var target := PlaceOf(prefix);
      if target.Err? { return Err(target.error); }
      var root := target.value.path;
      GuardedPrefixIsNotRoot(prefix);
      if !Found(tree, target.value) { return Ok([]); }
      if IsFile(tree, target.value) {
        NothingBelowFile(tree, root);
        tree := tree.(files := tree.files - {root});
        return Ok([root]);
      }
      ghost var before := tree;
      var deleted := DeleteTree(root);
      if removable {
        tree := tree.(dirs := tree.dirs - DirsBelow(tree, root));
      }
      RemovalKeepsTree(before, root, removable);
      r := Ok(deleted);
    }

    /** The worklist loop of `delete_all_with_prefix`. */
    method DeleteTree(root: Path) returns (deleted: seq<Path>)
      requires tree.Valid() && root in tree.dirs
      modifies this
      ensures Elements(deleted) == FilesBelow(old(tree), root) && NoDuplicates(deleted)
      ensures tree == old(tree).(files := old(tree).files - FilesBelow(old(tree), root))
    {
      hide Frontier, FilesIn, NoDuplicates, Elements, ChildDirs, ChildFiles, Unread, DirsBelow;
      FrontierStart(tree, root);
      NoElements<Path>();
      NothingStripped(tree, root);
      var stack := [root];
      deleted := [];
      ghost var visited := {};
      ghost var before := tree;
      while stack != []
        invariant NoDuplicates(stack) && Frontier(before, root, Elements(stack), visited)
        invariant NoDuplicates(deleted) && Elements(deleted) == FilesIn(before, root, visited)
        invariant tree == Stripped(before, root, visited)
        decreases Unread(before, root, visited)
      {
        var current := stack[|stack| - 1];
        PopElements(stack);
        FrontierStep(before, root, Elements(stack), visited, current);
        FilesInStep(before, root, visited, current);
        UnreadShrinks(before, root, visited, current);
        stack := stack[..|stack| - 1];
        StripOneMore(before, root, visited, current);
        var subdirs, found := DeleteEntries(current);
        AppendElements(stack, subdirs);
        AppendElements(deleted, found);
        stack, deleted := stack + subdirs, deleted + found;
        visited := visited + {current};
      }
      TraversalComplete(before, root, visited);
    }

    /** The inner loop of `delete_all_with_prefix`: files go at once, directories are kept for later. */
    method DeleteEntries(d: Path) returns (subdirs: seq<Path>, deleted: seq<Path>)
      requires tree.Valid()
      modifies this
      ensures NoDuplicates(subdirs) && Elements(subdirs) == ChildDirs(old(tree), d)
      ensures NoDuplicates(deleted) && Elements(deleted) == ChildFiles(old(tree), d)
      ensures tree == old(tree).(files := old(tree).files - ChildFiles(old(tree), d))
    {
      hide ChildDirs, ChildFiles, Elements, NoDuplicates;
      subdirs, deleted := [], [];
      ghost var before := tree;
      var entries := ChildDirs(tree, d) + ChildFiles(tree, d);
      var rest := entries;
      EntriesAreOfOneKind(tree, d);
      NothingSeen(ChildDirs(tree, d), ChildFiles(tree, d));
      while rest != {}
        invariant rest <= entries
        invariant NoDuplicates(subdirs) && Elements(subdirs) == ChildDirs(before, d) - rest
        invariant NoDuplicates(deleted) && Elements(deleted) == ChildFiles(before, d) - rest
        invariant tree == before.(files := before.files - (ChildFiles(before, d) - rest))
        decreases |rest|
      {
        var path :| path in rest;
        EntryStep(subdirs, ChildDirs(before, d), rest, path);
        EntryStep(deleted, ChildFiles(before, d), rest, path);
        RemoveOneMore(before.files, ChildFiles(before, d), rest, path);
        if path in tree.dirs {
          subdirs := subdirs + [path];
        } else {
          tree := tree.(files := tree.files - {path});
          deleted := deleted + [path];
        }
        rest := rest - {path};
      }
      assert rest == {};
    }
  }

  /** The tree after a successful call. */
  function AfterDeletion(tree: Tree, prefix: string, removable: bool): Tree
    requires PlaceOf(prefix).Ok?
  {
    var place := PlaceOf(prefix).value;
    if !Found(tree, place) then tree
    else if IsFile(tree, place) then tree.(files := tree.files - {place.path})
    else
      Tree(tree.files - FilesBelow(tree, place.path),
           if removable then tree.dirs - DirsBelow(tree, place.path) else tree.dirs)
  }

  lemma NothingBelowMissing(tree: Tree, p: Path)
    requires tree.Valid() && !Exists(tree, p)
    ensures FilesBelow(tree, p) == {}
  {
    forall f | f in tree.files && p <= f ensures false {
      AncestorsExist(tree, f, p);
    }
  }

  lemma NothingBelowFile(tree: Tree, p: Path)
    requires tree.Valid() && p in tree.files
    ensures FilesBelow(tree, p) == {p}
  {
    forall f | f in tree.files && p <= f ensures f == p {
      if f != p { AncestorsExist(tree, Parent(f), p); }
    }
  }

  lemma {:induction false} AncestorsExist(tree: Tree, f: Path, p: Path)
    requires tree.Valid() && Exists(tree, f) && p <= f
    ensures p == f || p in tree.dirs
    decreases |f|
  {
    if p != f { AncestorsExist(tree, Parent(f), p); }
  }

  lemma RemovalKeepsTree(tree: Tree, p: Path, removable: bool)
    requires tree.Valid() && p in tree.dirs && p != []
    ensures Tree(tree.files - FilesBelow(tree, p),
                 if removable then tree.dirs - DirsBelow(tree, p) else tree.dirs).Valid()
  {
    forall q | q in tree.files + tree.dirs && q != [] && p <= Parent(q) ensures p <= q {
    }
  }

  // ---------------------------------------------------------------------------
  // Listing and deleting belong together
  // ---------------------------------------------------------------------------

  /** Deleting returns what listing would have if and only if the prefix does not name a file; a file
      can be deleted but not listed, and with a slash after its name neither.  Afterwards the whole
      listing is the old one without what was deleted, and the place lists empty. */
  lemma DeletionMatchesListing(tree: Tree, prefix: string, removable: bool)
    requires tree.Valid() && Deletion(tree, prefix).Ok?
    ensures var p, after := SafePath(prefix).value, AfterDeletion(tree, prefix, removable);
            && (Listing(tree, Some(prefix)) == Deletion(tree, prefix) <==> p !in tree.files || NamesDirectory(prefix))
            && (p !in tree.files || !NamesDirectory(prefix) ==> Deletion(tree, prefix) == Ok(FilesBelow(tree, p)))
            && (p in tree.files ==>
                  if NamesDirectory(prefix) then Deletion(tree, prefix) == Ok({}) && after == tree
                  else Listing(tree, Some(prefix)) == Err(NotADirectory) && Deletion(tree, prefix) == Ok({p}))
            && Listing(after, None).value == Listing(tree, None).value - Deletion(tree, prefix).value
            && Listing(after, Some(prefix)) == Ok({})
  {
    var p, after := SafePath(prefix).value, AfterDeletion(tree, prefix, removable);
    GuardedPrefixIsNotRoot(prefix);
    if p in tree.files { NothingBelowFile(tree, p); }
    if !Exists(tree, p) { NothingBelowMissing(tree, p); }
    assert FilesBelow(tree, []) == tree.files && FilesBelow(after, []) == after.files;
    assert Found(tree, PlaceOf(prefix).value) ==> FilesBelow(after, p) == {};
  }

  lemma {:induction false} ComponentsEmpty(segments: seq<string>)
    ensures Components(segments) == [] <==> forall k :: 0 <= k < |segments| ==> segments[k] == "" || segments[k] == "."
  {
    if segments != [] {
      ComponentsEmpty(segments[1..]);
      assert forall k :: 0 <= k < |segments[1..]| ==> segments[1..][k] == segments[k + 1];
      assert forall k :: 1 <= k < |segments| ==> segments[k] == segments[1..][k - 1];
    }
  }

  lemma RefusedAsAbsolute(input: string)
    ensures SafePath(input) == Err(AbsolutePath) <==> Absolute(input)
    ensures SafePath(input).Err? ==> SafePath(input).error == AbsolutePath || SafePath(input).error == ParentReference
  {
  }

  /** Which prefixes are refused, and why, in terms of their text: the root, for prefixes that without
      surrounding whitespace are nothing but slashes and dots; absolute ones; and those with a "..". */
  lemma RefusedPrefixes(tree: Tree, prefix: string)
    ensures var segments := Split(Trim(prefix));
            var rootOnly := (Trim(prefix) == "" || Trim(prefix)[0] != '/')
                            && forall k :: 0 <= k < |segments| ==> segments[k] == "" || segments[k] == ".";
            var absolute := prefix != "" && prefix[0] == '/';
            && (Deletion(tree, prefix) == Err(StorageRoot) <==> rootOnly)
            && (Deletion(tree, prefix) == Err(AbsolutePath) <==> !rootOnly && absolute)
            && (Deletion(tree, prefix) == Err(ParentReference) <==> !rootOnly && !absolute && ".." in Split(prefix))
            && (Deletion(tree, prefix).Ok? <==> !rootOnly && !absolute && ".." !in Split(prefix))
  {
    hide Components, Split, Trim, Resolve;
    ComponentsEmpty(Split(Trim(prefix)));
    SafePathResolvesInside(prefix);
    RefusedAsAbsolute(prefix);
    assert HasRealComponent(prefix) <==> Absolute(Trim(prefix)) || Components(Split(Trim(prefix))) != [];
  }

  /** What is listed, in terms of the text of the prefix. */
  lemma ListedPrefixes(tree: Tree, prefix: string)
    requires tree.Valid()
    ensures Listing(tree, None) == Ok(tree.files)
    ensures var segments := Split(prefix);
            var absolute, slashed := prefix != "" && prefix[0] == '/', segments[|segments| - 1] in {"", "."};
            && (Listing(tree, Some(prefix)) == Err(AbsolutePath) <==> absolute)
            && (Listing(tree, Some(prefix)) == Err(ParentReference) <==> !absolute && ".." in segments)
            && (!absolute && ".." !in segments ==>
                  var place := Resolve([], segments);
                  && place.Some?
                  && Listing(tree, Some(prefix)) ==
                     if place.value in tree.files then (if slashed then Ok({}) else Err(NotADirectory))
                     else Ok(set f | f in tree.files && place.value <= f))
  {
    SafePathResolvesInside(prefix);
    assert FilesBelow(tree, []) == tree.files;
    if SafePath(prefix).Ok? && !Exists(tree, SafePath(prefix).value) {
      NothingBelowMissing(tree, SafePath(prefix).value);
    }
  }

  /** The directories go with their files where they can be removed, and no others do. */
  lemma DirectoriesAfterDeletion(tree: Tree, prefix: string, removable: bool)
    requires tree.Valid() && Deletion(tree, prefix).Ok?
    ensures var p, after := SafePath(prefix).value, AfterDeletion(tree, prefix, removable);
            forall d :: d in after.dirs <==> d in tree.dirs && !(removable && p in tree.dirs && p <= d)
  {
    var p := SafePath(prefix).value;
    if p !in tree.dirs {
      forall d | d in tree.dirs && p <= d ensures false { AncestorsExist(tree, d, p); }
    }
  }

  /** A neighbour whose name merely begins with the same characters is not below the prefix. */
  lemma NeighboursSurvive(tree: Tree, prefix: string, removable: bool, more: string, rest: Path)
    requires tree.Valid() && Deletion(tree, prefix).Ok? && SafePath(prefix).value != [] && more != ""
    ensures var p := SafePath(prefix).value;
            var neighbour := p[..|p| - 1] + [p[|p| - 1] + more] + rest;
            neighbour in tree.files <==> neighbour in AfterDeletion(tree, prefix, removable).files
  {
    var p := SafePath(prefix).value;
    var neighbour := p[..|p| - 1] + [p[|p| - 1] + more] + rest;
    assert neighbour[|p| - 1] == p[|p| - 1] + more;
    assert |neighbour[|p| - 1]| != |p[|p| - 1]|;
  }
}
