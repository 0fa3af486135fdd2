/** The directory-tree renderer of `FileTreeDisplay`: the filesystem below the
    root is given as data, each directory's listing either readable or failing
    with a permission error or another read error. A directory renders as its
    kept subdirectories in name order, each followed at once by its own
    subtree, and then its kept files in name order; every line carries the
    prefix of its parent plus one `style * indent` unit. */
module FileTree {
  import opened Wrappers
  import Text
  import Glob

  /** Suffix of the default output file name. */
  const DefaultSuffix: string := "_filetree.txt"
  const PermissionDeniedText: string := "[Permission Denied]"
  const ReadErrorText: string := "[Error reading directory]"

  /** An entry of a directory as `os.scandir` reports it. Only an entry with
      `is_dir(follow_symlinks=False)` is a `Dir`; a symbolic link to a
      directory is a `File` entry and is never descended into. */
  datatype Entry = Dir(name: string, listing: Listing) | File(name: string)

  /** What reading a directory gives: its entries in the operating system's
      order, or a `PermissionError`, or any other `OSError`. */
  datatype Listing = Readable(entries: seq<Entry>) | Denied | Unreadable

  /** The state of a `FileTreeDisplay` object. */
  datatype Config = Config(
    rootPath: string,
    filepath: Option<string>,
    ignoreDirs: set<string>,
    ignoreFiles: set<string>,
    style: string,
    indent: int,
    save2file: bool,
    printout: bool)

  /** Python truthiness of an optional string. */
  predicate Given(s: Option<string>)
  {
    s.Some? && s.value != ""
  }

  /** The constructor: an empty or missing root falls back to the current
      directory `cwd`, and missing ignore lists become empty sets. */
  function Init(rootDir: Option<string>, cwd: string, filepath: Option<string>,
                ignoreDirs: Option<seq<string>>, ignoreFiles: Option<seq<string>>,
                style: string, indent: int, save2file: bool, printout: bool): (c: Config)
    ensures c.rootPath == (if Given(rootDir) then rootDir.value else cwd)
    ensures forall n :: n in c.ignoreDirs <==> ignoreDirs.Some? && n in ignoreDirs.value
    ensures forall n :: n in c.ignoreFiles <==> ignoreFiles.Some? && n in ignoreFiles.value
    ensures c.filepath == filepath && c.style == style && c.indent == indent
    ensures c.save2file == save2file && c.printout == printout
  {
    Config(
      if Given(rootDir) then rootDir.value else cwd,
      filepath,
      if ignoreDirs.Some? then set n | n in ignoreDirs.value else {},
      if ignoreFiles.Some? then set n | n in ignoreFiles.value else {},
      style, indent, save2file, printout)
  }

  /** One level of indentation: `style * indent`. */
  function Unit(c: Config): string
  {
    Text.Repeat(c.style, c.indent)
  }

  // ---------------------------------------------------------------------
  // Paths
  // ---------------------------------------------------------------------

  /** The path components that name something: empty and `.` parts vanish,
      as they do when pathlib parses a POSIX path. */
  function Components(parts: seq<string>): (r: seq<string>)
    ensures forall i | 0 <= i < |r| :: r[i] != "" && r[i] != "."
  {
    if |parts| == 0 then []
    else
      var rest := Components(parts[1..]);
      if parts[0] == "" || parts[0] == "." then rest else [parts[0]] + rest
  }

  /** `Path(path).name`: the last component, or "" when there is none. */
  function PathName(path: string): string
  {
    var cs := Components(Text.SplitOn(path, '/'));
    if |cs| == 0 then "" else cs[|cs| - 1]
  }

  /** `Path(dir) / name` as text. */
  function JoinPath(dir: string, name: string): string
  {
    if |dir| > 0 && dir[|dir| - 1] == '/' then dir + name else dir + "/" + name
  }

  lemma {:induction false} ComponentsAppend(a: seq<string>, b: seq<string>)
    ensures Components(a + b) == Components(a) + Components(b)
    decreases |a|
  {
    if |a| > 0 {
      assert (a + b)[1..] == a[1..] + b;
      ComponentsAppend(a[1..], b);
    } else {
      assert a + b == b;
    }
  }

  lemma {:induction false} SplitOnSeparator(a: string, b: string, c: char)
    ensures Text.SplitOn(a + [c] + b, c) == Text.SplitOn(a, c) + Text.SplitOn(b, c)
    decreases |a|
  {
    if |a| > 0 {
      assert (a + [c] + b)[1..] == a[1..] + [c] + b;
      SplitOnSeparator(a[1..], b, c);
    } else {
      assert (a + [c] + b)[1..] == b;
    }
  }

  /** A name joined under a directory is the last component of the result. */
  lemma JoinPathName(dir: string, name: string)
    requires name != "" && name != "." && '/' !in name
    ensures PathName(JoinPath(dir, name)) == name
  {
    var d := if |dir| > 0 && dir[|dir| - 1] == '/' then dir[..|dir| - 1] else dir;
    assert JoinPath(dir, name) == d + ['/'] + name;
    SplitOnSeparator(d, name, '/');
    Text.SplitOnAbsent(name, '/');
    ComponentsAppend(Text.SplitOn(d, '/'), [name]);
    assert Components([name]) == [name];
  }

  /** Joining a name under a directory adds exactly that one component. */
  lemma JoinPathComponents(dir: string, name: string)
    requires name != "" && name != "." && '/' !in name
    ensures Components(Text.SplitOn(JoinPath(dir, name), '/')) ==
            Components(Text.SplitOn(dir, '/')) + [name]
  {
    var d := if |dir| > 0 && dir[|dir| - 1] == '/' then dir[..|dir| - 1] else dir;
    assert JoinPath(dir, name) == d + ['/'] + name;
    SplitOnSeparator(d, name, '/');
    Text.SplitOnAbsent(name, '/');
    ComponentsAppend(Text.SplitOn(d, '/'), [name]);
    assert Components([name]) == [name];
    if d != dir {
      assert dir == d + ['/'] + "";
      SplitOnSeparator(d, "", '/');
      Text.SplitOnAbsent("", '/');
      ComponentsAppend(Text.SplitOn(d, '/'), [""]);
      assert Components([""]) == [];
    }
  }

  lemma PathNameHasNoSlash(path: string)
    ensures '/' !in PathName(path)
  {
    var parts := Text.SplitOn(path, '/');
    ComponentsFrom(parts);
  }

  lemma {:induction false} ComponentsFrom(parts: seq<string>)
    ensures forall i | 0 <= i < |Components(parts)| :: Components(parts)[i] in parts
    decreases |parts|
  {
    if |parts| > 0 {
      ComponentsFrom(parts[1..]);
    }
  }

  /** `format_out_path`: the given file path when it is non-empty, otherwise
      `<root>/<root name>_filetree.txt`. */
  function FormatOutPath(c: Config): (out: string)
    ensures Given(c.filepath) ==> out == c.filepath.value
    ensures !Given(c.filepath) ==> c.rootPath <= out
    ensures !Given(c.filepath) ==> PathName(out) == PathName(c.rootPath) + DefaultSuffix
    ensures !Given(c.filepath) ==>
              Components(Text.SplitOn(out, '/')) ==
              Components(Text.SplitOn(c.rootPath, '/')) + [PathName(c.rootPath) + DefaultSuffix]
  {
    if Given(c.filepath) then c.filepath.value
    else
      var fileName := PathName(c.rootPath) + DefaultSuffix;
      PathNameHasNoSlash(c.rootPath);
      assert fileName[|fileName| - 1] == 't';
      JoinPathName(c.rootPath, fileName);
      JoinPathComponents(c.rootPath, fileName);
      JoinPath(c.rootPath, fileName)
  }

  // ---------------------------------------------------------------------
  // Filtering and ordering one directory's entries
  // ---------------------------------------------------------------------

  /** `should_ignore`: the name is in the set for its kind, or matches one of
      its members as a glob pattern. */
  predicate ShouldIgnore(c: Config, name: string, isDir: bool)
  {
    var ignoreSet := if isDir then c.ignoreDirs else c.ignoreFiles;
    name in ignoreSet || exists pattern | pattern in ignoreSet :: Glob.Match(pattern, name)
  }

  /** For a name without glob metacharacters the literal test adds nothing:
      it is ignored exactly when some pattern of its set matches it. */
  lemma PlainNameIgnoredByPattern(c: Config, name: string, isDir: bool)
    requires Glob.Plain(name)
    ensures ShouldIgnore(c, name, isDir) <==>
            exists pattern | pattern in (if isDir then c.ignoreDirs else c.ignoreFiles) :: Glob.Match(pattern, name)
  {
    Glob.PlainMatchesItself(name, name);
  }

  /** A listed name is ignored even when, read as a pattern, it does not match
      itself: `[ab]` in the file set hides the file named `[ab]`. */
  lemma LiteralMemberIgnored(c: Config)
    requires c.ignoreFiles == {"[ab]"}
    ensures ShouldIgnore(c, "[ab]", false)
    ensures !Glob.Match("[ab]", "[ab]")
  {
    Glob.BracketIsNotLiteral();
  }

  /** The entry is shown: a directory not ignored by the directory set, or a
      file not ignored by the file set. */
  predicate Kept(c: Config, e: Entry)
  {
    !ShouldIgnore(c, e.name, e.Dir?)
  }

  /** The entries that go into the `dirs` list (wantDirs) or the `files` list. */
  predicate Wanted(c: Config, e: Entry, wantDirs: bool)
  {
    e.Dir? == wantDirs && Kept(c, e)
  }

  /** The scan loop's `dirs` or `files` list: the wanted entries in the
      order the listing gives them. */
  function Select(c: Config, es: seq<Entry>, wantDirs: bool): (r: seq<Entry>)
    ensures forall e :: multiset(r)[e] == if Wanted(c, e, wantDirs) then multiset(es)[e] else 0
  {
    if |es| == 0 then []
    else
      var rest := Select(c, es[1..], wantDirs);
      assert es == [es[0]] + es[1..];
      if Wanted(c, es[0], wantDirs) then [es[0]] + rest else rest
  }

  lemma {:induction false} SelectAppend(c: Config, a: seq<Entry>, b: seq<Entry>, wantDirs: bool)
    ensures Select(c, a + b, wantDirs) == Select(c, a, wantDirs) + Select(c, b, wantDirs)
    decreases |a|
  {
    if |a| > 0 {
      assert (a + b)[1..] == a[1..] + b;
      SelectAppend(c, a[1..], b, wantDirs);
    } else {
      assert a + b == b;
    }
  }

  predicate SortedByName(es: seq<Entry>)
  {
    forall i, j | 0 <= i < j < |es| :: Text.Below(es[i].name, es[j].name)
  }

  /** Puts e before the first entry whose name is not below e's. */
  function Insert(e: Entry, es: seq<Entry>): (r: seq<Entry>)
    requires SortedByName(es)
    ensures SortedByName(r)
    ensures multiset(r) == multiset(es) + multiset{e}
  {
    if |es| == 0 then [e]
    else if Text.Below(e.name, es[0].name) then
      BelowHead(e, es);
      PrependLeast(e, es);
      [e] + es
    else
      SortedTail(es);
      var rest := Insert(e, es[1..]);
      Text.BelowTotal(e.name, es[0].name);
      HeadBelowRest(es, e, rest);
      PrependLeast(es[0], rest);
      assert es == [es[0]] + es[1..];
      [es[0]] + rest
  }

  /** A name below the head of a sorted sequence is below all of it. */
  lemma BelowHead(e: Entry, es: seq<Entry>)
    requires SortedByName(es) && |es| > 0 && Text.Below(e.name, es[0].name)
    ensures forall j | 0 <= j < |es| :: Text.Below(e.name, es[j].name)
  {
    forall j | 0 < j < |es| {
      Text.BelowTransitive(e.name, es[0].name, es[j].name);
    }
  }

  lemma PrependLeast(x: Entry, es: seq<Entry>)
    requires SortedByName(es)
    requires forall j | 0 <= j < |es| :: Text.Below(x.name, es[j].name)
    ensures SortedByName([x] + es)
  {
    var r := [x] + es;
    forall i, j | 0 <= i < j < |r|
      ensures Text.Below(r[i].name, r[j].name)
    {
      assert r[j] == es[j - 1];
      if i > 0 {
        assert r[i] == es[i - 1];
      }
    }
  }

  /** The head of a sorted sequence stays below everything after inserting
      a name above it into the tail. */
  lemma HeadBelowRest(es: seq<Entry>, e: Entry, rest: seq<Entry>)
    requires SortedByName(es) && |es| > 0 && Text.Below(es[0].name, e.name)
    requires multiset(rest) == multiset(es[1..]) + multiset{e}
    ensures forall j | 0 <= j < |rest| :: Text.Below(es[0].name, rest[j].name)
  {
    forall j | 0 <= j < |rest|
      ensures Text.Below(es[0].name, rest[j].name)
    {
      assert rest[j] in multiset(rest);
      if rest[j] != e {
        assert rest[j] in multiset(es[1..]);
        var k :| 0 <= k < |es[1..]| && es[1..][k] == rest[j];
        assert es[k + 1] == rest[j];
      }
    }
  }

  /** `list.sort(key=lambda e: e.name)`: ordered by name and a permutation.
      Stability is not stated: the names of one listing are distinct, and
      then these two facts fix the result (see SortedUnique). */
  function SortByName(es: seq<Entry>): (r: seq<Entry>)
    ensures SortedByName(r)
    ensures multiset(r) == multiset(es)
  {
    if |es| == 0 then []
    else
      assert es == [es[0]] + es[1..];
      Insert(es[0], SortByName(es[1..]))
  }

  /** The kept subdirectories of a listing, in name order. */
  function SortedDirs(c: Config, es: seq<Entry>): (r: seq<Entry>)
    ensures SortedByName(r)
    ensures forall e :: multiset(r)[e] == if Wanted(c, e, true) then multiset(es)[e] else 0
    ensures forall i | 0 <= i < |r| :: r[i].Dir? && r[i] in es
  {
    var r := SortByName(Select(c, es, true));
    assert forall i | 0 <= i < |r| :: r[i] in multiset(r);
    r
  }

  /** The kept files of a listing, in name order. */
  function SortedFiles(c: Config, es: seq<Entry>): (r: seq<Entry>)
    ensures SortedByName(r)
    ensures forall e :: multiset(r)[e] == if Wanted(c, e, false) then multiset(es)[e] else 0
    ensures forall i | 0 <= i < |r| :: r[i].File? && r[i] in es
  {
    var r := SortByName(Select(c, es, false));
    assert forall i | 0 <= i < |r| :: r[i] in multiset(r);
    r
  }

  // ---------------------------------------------------------------------
  // build_tree
  // ---------------------------------------------------------------------

  function Flatten<T>(xss: seq<seq<T>>): seq<T>
  {
    if |xss| == 0 then [] else xss[0] + Flatten(xss[1..])
  }

  /** `build_tree(dir, prefix)`: the lines yielded for one directory. */
  function BuildTree(c: Config, l: Listing, prefix: string): seq<string>
    decreases l, 1
  {
    match l
    case Denied => [prefix + Unit(c) + PermissionDeniedText]
    case Unreadable => [prefix + Unit(c) + ReadErrorText]
    case Readable(es) =>
      var dirs := SortedDirs(c, es);
      var files := SortedFiles(c, es);
      Flatten(seq(|dirs|, i requires 0 <= i < |dirs| => DirBlock(c, dirs[i], prefix)))
      + seq(|files|, i requires 0 <= i < |files| => prefix + Unit(c) + files[i].name)
  }

  /** The lines for one kept subdirectory: its own line, ending in `/`, then
      its subtree one unit deeper. */
  function DirBlock(c: Config, d: Entry, prefix: string): seq<string>
    requires d.Dir?
    decreases d, 0
  {
    [prefix + Unit(c) + d.name + "/"] + BuildTree(c, d.listing, prefix + Unit(c))
  }

  /** The blocks of all kept subdirectories, in order. */
  function DirBlocks(c: Config, dirs: seq<Entry>, prefix: string): seq<seq<string>>
    requires forall i | 0 <= i < |dirs| :: dirs[i].Dir?
  {
    seq(|dirs|, i requires 0 <= i < |dirs| => DirBlock(c, dirs[i], prefix))
  }

  /** Where block j starts in the flattened sequence. */
  function Offset<T>(xss: seq<seq<T>>, j: nat): nat
    requires j <= |xss|
  {
    if j == 0 then 0 else Offset(xss, j - 1) + |xss[j - 1]|
  }

  lemma {:induction false} FlattenAppend<T>(a: seq<seq<T>>, b: seq<seq<T>>)
    ensures Flatten(a + b) == Flatten(a) + Flatten(b)
    decreases |a|
  {
    if |a| > 0 {
      assert (a + b)[1..] == a[1..] + b;
      FlattenAppend(a[1..], b);
    } else {
      assert a + b == b;
    }
  }

  lemma {:induction false} OffsetIsPrefixLength<T>(xss: seq<seq<T>>, j: nat)
    requires j <= |xss|
    ensures Offset(xss, j) == |Flatten(xss[..j])|
    decreases j
  {
    if j > 0 {
      OffsetIsPrefixLength(xss, j - 1);
      assert xss[..j] == xss[..j - 1] + [xss[j - 1]];
      FlattenAppend(xss[..j - 1], [xss[j - 1]]);
    }
  }

  /** Block j of a flattened sequence sits, whole and in order, at its offset. */
  lemma FlattenSlice<T>(xss: seq<seq<T>>, j: nat)
    requires j < |xss|
    ensures Offset(xss, j + 1) <= Offset(xss, |xss|) == |Flatten(xss)|
    ensures Flatten(xss)[Offset(xss, j)..Offset(xss, j + 1)] == xss[j]
  {
    assert xss == xss[..j] + [xss[j]] + xss[j + 1..];
    FlattenAppend(xss[..j] + [xss[j]], xss[j + 1..]);
    FlattenAppend(xss[..j], [xss[j]]);
    OffsetIsPrefixLength(xss, j);
    OffsetIsPrefixLength(xss, j + 1);
    OffsetIsPrefixLength(xss, |xss|);
    assert xss[..j + 1] == xss[..j] + [xss[j]];
    assert xss[..|xss|] == xss;
    assert Flatten(xss[j + 1..]) == Flatten(xss[j + 1..]);
  }

  lemma FlattenMember<T>(xss: seq<seq<T>>, x: T)
    requires x in Flatten(xss)
    ensures exists j | 0 <= j < |xss| :: x in xss[j]
  {
    if |xss| > 0 && x !in xss[0] {
      FlattenMember(xss[1..], x);
      var j :| 0 <= j < |xss| - 1 && x in xss[1..][j];
      assert x in xss[j + 1];
    }
  }

  /** The lines of a readable directory: first the blocks of its kept
      subdirectories in name order, then one line per kept file. */
  lemma ReadableSplit(c: Config, es: seq<Entry>, prefix: string)
    ensures BuildTree(c, Readable(es), prefix) ==
            Flatten(DirBlocks(c, SortedDirs(c, es), prefix)) + FileLines(c, SortedFiles(c, es), prefix)
  {
  }

  /** The line of each kept file, one unit deeper than the directory. */
  function FileLines(c: Config, files: seq<Entry>, prefix: string): (r: seq<string>)
    ensures |r| == |files|
    ensures forall j | 0 <= j < |files| :: r[j] == prefix + Unit(c) + files[j].name
  {
    seq(|files|, i requires 0 <= i < |files| => prefix + Unit(c) + files[i].name)
  }

  /** A readable directory has one line per kept file plus the lines of the
      blocks of its kept subdirectories. */
  lemma ReadableLength(c: Config, es: seq<Entry>, prefix: string)
    ensures |BuildTree(c, Readable(es), prefix)| ==
            Offset(DirBlocks(c, SortedDirs(c, es), prefix), |SortedDirs(c, es)|) + |SortedFiles(c, es)|
  {
    ReadableSplit(c, es, prefix);
    OffsetAll(DirBlocks(c, SortedDirs(c, es), prefix));
  }

  /** The offset past the last block is the total length. */
  lemma OffsetAll<T>(xss: seq<seq<T>>)
    ensures Offset(xss, |xss|) == |Flatten(xss)|
  {
    OffsetIsPrefixLength(xss, |xss|);
    assert xss[..|xss|] == xss;
  }

  /** The j-th kept subdirectory in name order: its line, ending in `/`,
      sits at the start of its block and is followed at once by its whole
      subtree one unit deeper. */
  lemma DirectoryBlockAt(c: Config, es: seq<Entry>, prefix: string, j: nat)
    requires j < |SortedDirs(c, es)|
    ensures
      var lines := BuildTree(c, Readable(es), prefix);
      var d := SortedDirs(c, es)[j];
      var blocks := DirBlocks(c, SortedDirs(c, es), prefix);
      var lo, hi := Offset(blocks, j), Offset(blocks, j + 1);
      && lo < hi <= |lines|
      && lines[lo] == prefix + Unit(c) + d.name + "/"
      && lines[lo + 1..hi] == BuildTree(c, d.listing, prefix + Unit(c))
  {
    var dirs := SortedDirs(c, es);
    var blocks := DirBlocks(c, dirs, prefix);
    ReadableSplit(c, es, prefix);
    assert blocks[j] == [prefix + Unit(c) + dirs[j].name + "/"] + BuildTree(c, dirs[j].listing, prefix + Unit(c));
    BlockInFlatten(blocks, FileLines(c, SortedFiles(c, es), prefix), j);
  }

  /** Block j of the blocks, followed by anything, sits at its offset: its
      first element there and the rest directly after. */
  lemma BlockInFlatten<T>(blocks: seq<seq<T>>, tail: seq<T>, j: nat)
    requires j < |blocks| && |blocks[j]| > 0
    ensures Offset(blocks, j) < Offset(blocks, j + 1) <= |Flatten(blocks) + tail|
    ensures (Flatten(blocks) + tail)[Offset(blocks, j)] == blocks[j][0]
    ensures (Flatten(blocks) + tail)[Offset(blocks, j) + 1..Offset(blocks, j + 1)] == blocks[j][1..]
  {
    FlattenSlice(blocks, j);
    var lo, hi := Offset(blocks, j), Offset(blocks, j + 1);
    var all := Flatten(blocks) + tail;
    assert all[lo..hi] == Flatten(blocks)[lo..hi] == blocks[j];
    assert all[lo] == all[lo..hi][0];
    assert all[lo + 1..hi] == all[lo..hi][1..];
  }

  /** The j-th kept file in name order is on the j-th line after all the
      subdirectory blocks. */
  lemma FileLineAt(c: Config, es: seq<Entry>, prefix: string, j: nat)
    requires j < |SortedFiles(c, es)|
    ensures
      var k := Offset(DirBlocks(c, SortedDirs(c, es), prefix), |SortedDirs(c, es)|);
      && k + j < |BuildTree(c, Readable(es), prefix)|
      && BuildTree(c, Readable(es), prefix)[k + j] == prefix + Unit(c) + SortedFiles(c, es)[j].name
  {
    var dirs, files := SortedDirs(c, es), SortedFiles(c, es);
    var blocks := DirBlocks(c, dirs, prefix);
    var fileLines := FileLines(c, files, prefix);
    ReadableSplit(c, es, prefix);
    assert |blocks| == |dirs|;
    OffsetAll(blocks);
    IndexPastPrefix(Flatten(blocks), fileLines, j);
    assert fileLines[j] == prefix + Unit(c) + files[j].name;
  }

  lemma IndexPastPrefix<T>(x: seq<T>, y: seq<T>, j: nat)
    requires j < |y|
    ensures |x| + j < |x + y| && (x + y)[|x| + j] == y[j]
  {
  }

  /** Every line yielded for a directory read with prefix p starts with
      p + style * indent. */
  lemma {:induction false} LinesCarryPrefix(c: Config, l: Listing, prefix: string)
    ensures forall line | line in BuildTree(c, l, prefix) :: prefix + Unit(c) <= line
    decreases l, 1
  {
    match l
    case Readable(es) =>
      var dirs := SortedDirs(c, es);
      var blocks := DirBlocks(c, dirs, prefix);
      var fileLines := FileLines(c, SortedFiles(c, es), prefix);
      ReadableSplit(c, es, prefix);
      forall line | line in BuildTree(c, l, prefix)
        ensures prefix + Unit(c) <= line
      {
        if line in Flatten(blocks) {
          FlattenMember(blocks, line);
          var j :| 0 <= j < |blocks| && line in blocks[j];
          DirBlockCarriesPrefix(c, dirs[j], prefix);
        } else {
          assert line in fileLines;
          var i :| 0 <= i < |fileLines| && fileLines[i] == line;
          assert line == prefix + Unit(c) + SortedFiles(c, es)[i].name;
        }
      }
    case Denied =>
    case Unreadable =>
  }

  lemma {:induction false} DirBlockCarriesPrefix(c: Config, d: Entry, prefix: string)
    requires d.Dir?
    ensures forall line | line in DirBlock(c, d, prefix) :: prefix + Unit(c) <= line
    decreases d, 0
  {
    var u := prefix + Unit(c);
    LinesCarryPrefix(c, d.listing, u);
    forall line | line in BuildTree(c, d.listing, u)
      ensures u <= line
    {
      assert u + Unit(c) <= line;
      assert line[..|u|] == (u + Unit(c))[..|u|];
    }
  }

  /** With style `*` and indent 3 every line of the tree starts with `***`. */
  lemma StarStyleIndentThree(c: Config, l: Listing)
    requires c.style == "*" && c.indent == 3
    ensures forall line | line in BuildTree(c, l, "") :: "***" <= line
  {
    assert Unit(c) == "***";
    LinesCarryPrefix(c, l, "");
    assert "" + Unit(c) == "***";
  }

  /** A non-positive indent makes the unit, and so every added prefix, empty. */
  lemma NonPositiveIndent(c: Config)
    requires c.indent <= 0
    ensures Unit(c) == ""
  {
  }

  /** A directory that cannot be read yields exactly one placeholder line at
      its depth and nothing else. */
  lemma UnreadableDirectory(c: Config, l: Listing, prefix: string)
    requires !l.Readable?
    ensures |BuildTree(c, l, prefix)| == 1
    ensures BuildTree(c, l, prefix)[0] ==
            prefix + Unit(c) + (if l.Denied? then PermissionDeniedText else ReadErrorText)
  {
  }

  // ---------------------------------------------------------------------
  // Ignored entries
  // ---------------------------------------------------------------------

  /** An ignored entry contributes nothing: the directory renders the same
      with the entry removed from its listing. */
  lemma IgnoredEntryInvisible(c: Config, es: seq<Entry>, i: nat, prefix: string)
    requires i < |es| && !Kept(c, es[i])
    ensures BuildTree(c, Readable(es[..i] + es[i + 1..]), prefix) == BuildTree(c, Readable(es), prefix)
  {
    var rest := es[..i] + es[i + 1..];
    assert es == es[..i] + ([es[i]] + es[i + 1..]);
    forall wantDirs: bool
      ensures Select(c, rest, wantDirs) == Select(c, es, wantDirs)
    {
      SelectAppend(c, es[..i], [es[i]] + es[i + 1..], wantDirs);
      SelectAppend(c, [es[i]], es[i + 1..], wantDirs);
      SelectAppend(c, es[..i], es[i + 1..], wantDirs);
      assert [es[i]][1..] == [];
    }
  }

  /** An ignored directory's contents are never read: whatever its listing
      holds, or whether it can be read at all, the output is the same. */
  lemma IgnoredDirectoryUnread(c: Config, es: seq<Entry>, i: nat, other: Listing, prefix: string)
    requires i < |es| && es[i].Dir? && ShouldIgnore(c, es[i].name, true)
    ensures BuildTree(c, Readable(es[i := Dir(es[i].name, other)]), prefix) == BuildTree(c, Readable(es), prefix)
  {
    var es' := es[i := Dir(es[i].name, other)];
    IgnoredEntryInvisible(c, es, i, prefix);
    IgnoredEntryInvisible(c, es', i, prefix);
    assert es'[..i] + es'[i + 1..] == es[..i] + es[i + 1..];
  }

  /** Directory names are matched only against `ignore_dirs` and file names
      only against `ignore_files`: changing the other set changes nothing. */
  lemma {:induction false} IgnoreSetsAreKindSpecific(c: Config, es: seq<Entry>, dirSet: set<string>, fileSet: set<string>)
    ensures Select(c.(ignoreFiles := fileSet), es, true) == Select(c, es, true)
    ensures Select(c.(ignoreDirs := dirSet), es, false) == Select(c, es, false)
    decreases |es|
  {
    if |es| > 0 {
      IgnoreSetsAreKindSpecific(c, es[1..], dirSet, fileSet);
    }
  }

  // ---------------------------------------------------------------------
  // The operating system's enumeration order does not matter
  // ---------------------------------------------------------------------

  /** No two entries of a listing share a name, as in any real directory. */
  ghost predicate NameKeyed(m: multiset<Entry>)
  {
    && (forall x | x in m :: m[x] == 1)
    && (forall x, y | x in m && y in m && x.name == y.name :: x == y)
  }

  lemma NameKeyedPart(m: multiset<Entry>, part: multiset<Entry>)
    requires NameKeyed(m)
    requires forall e | e in part :: part[e] <= m[e]
    ensures NameKeyed(part)
  {
  }

  /** The head of a name-sorted sequence has the least name. */
  lemma HeadIsLeast(a: seq<Entry>)
    requires SortedByName(a) && |a| > 0
    ensures forall e | e in multiset(a) :: Text.Below(a[0].name, e.name)
  {
    forall e | e in multiset(a)
      ensures Text.Below(a[0].name, e.name)
    {
      var k :| 0 <= k < |a| && a[k] == e;
      if k == 0 {
        Text.BelowTotal(e.name, e.name);
      }
    }
  }

  /** Two name-sorted sequences over the same distinct-named entries start
      with the same entry. */
  lemma SameHead(a: seq<Entry>, b: seq<Entry>)
    requires SortedByName(a) && SortedByName(b) && |a| > 0 && |b| > 0
    requires multiset(a) == multiset(b)
    requires NameKeyed(multiset(a))
    ensures a[0] == b[0]
  {
    assert a[0] in multiset(a) && b[0] in multiset(b);
    HeadIsLeast(a);
    HeadIsLeast(b);
    Text.BelowAntisymmetric(a[0].name, b[0].name);
  }

  lemma SameTail(a: seq<Entry>, b: seq<Entry>)
    requires |a| > 0 && |b| > 0 && a[0] == b[0]
    requires multiset(a) == multiset(b)
    requires NameKeyed(multiset(a))
    ensures multiset(a[1..]) == multiset(b[1..])
    ensures NameKeyed(multiset(a[1..]))
  {
    assert multiset(a) == multiset{a[0]} + multiset(a[1..]) by {
      assert a == [a[0]] + a[1..];
    }
    assert multiset(b) == multiset{b[0]} + multiset(b[1..]) by {
      assert b == [b[0]] + b[1..];
    }
    forall e | e in multiset(a[1..])
      ensures multiset(a[1..])[e] <= multiset(a)[e]
    {
    }
    NameKeyedPart(multiset(a), multiset(a[1..]));
  }

  lemma SortedTail(a: seq<Entry>)
    requires |a| > 0 && SortedByName(a)
    ensures SortedByName(a[1..])
  {
    forall i, j | 0 <= i < j < |a| - 1
      ensures Text.Below(a[1..][i].name, a[1..][j].name)
    {
      assert a[1..][i] == a[i + 1] && a[1..][j] == a[j + 1];
    }
  }

  /** Two name-sorted sequences holding the same distinct-named entries. */
  ghost predicate SameSorted(a: seq<Entry>, b: seq<Entry>)
  {
    SortedByName(a) && SortedByName(b) && multiset(a) == multiset(b) && NameKeyed(multiset(a))
  }

  lemma SameSortedStep(a: seq<Entry>, b: seq<Entry>)
    requires SameSorted(a, b)
    ensures |a| == |b|
    ensures |a| > 0 ==> a[0] == b[0] && SameSorted(a[1..], b[1..])
  {
    assert |b| == |multiset(b)| == |multiset(a)| == |a|;
    if |a| > 0 {
      SameHead(a, b);
      SameTail(a, b);
      SortedTail(a);
      SortedTail(b);
    }
  }

  /** Sorting by name leaves no choice when names are distinct. */
  lemma SortedUnique(a: seq<Entry>, b: seq<Entry>)
    requires SortedByName(a) && SortedByName(b)
    requires multiset(a) == multiset(b)
    requires NameKeyed(multiset(a))
    ensures a == b
  {
    SameSortedEqual(a, b);
  }

  lemma {:induction false} SameSortedEqual(a: seq<Entry>, b: seq<Entry>)
    requires SameSorted(a, b)
    ensures a == b
    decreases |a|
  {
    SameSortedStep(a, b);
    if |a| > 0 {
      SameSortedEqual(a[1..], b[1..]);
    }
    EqualByHeadAndTail(a, b);
  }

  lemma EqualByHeadAndTail<T>(a: seq<T>, b: seq<T>)
    requires |a| == |b|
    requires |a| > 0 ==> a[0] == b[0] && a[1..] == b[1..]
    ensures a == b
  {
    if |a| > 0 {
      assert a == [a[0]] + a[1..];
      assert b == [b[0]] + b[1..];
    }
  }

  /** The kept entries of one kind, in name order, depend only on which
      entries the listing holds and not on their order. */
  lemma SortedKindDetermined(c: Config, es1: seq<Entry>, es2: seq<Entry>, wantDirs: bool)
    requires multiset(es1) == multiset(es2)
    requires NameKeyed(multiset(es1))
    ensures wantDirs ==> SortedDirs(c, es1) == SortedDirs(c, es2)
    ensures !wantDirs ==> SortedFiles(c, es1) == SortedFiles(c, es2)
  {
    if wantDirs {
      SameKeptEntries(SortedDirs(c, es1), SortedDirs(c, es2), es1, es2, c, true);
    } else {
      SameKeptEntries(SortedFiles(c, es1), SortedFiles(c, es2), es1, es2, c, false);
    }
  }

  lemma SameKeptEntries(r1: seq<Entry>, r2: seq<Entry>, es1: seq<Entry>, es2: seq<Entry>, c: Config, wantDirs: bool)
    requires multiset(es1) == multiset(es2)
    requires NameKeyed(multiset(es1))
    requires SortedByName(r1) && SortedByName(r2)
    requires forall e :: multiset(r1)[e] == if Wanted(c, e, wantDirs) then multiset(es1)[e] else 0
    requires forall e :: multiset(r2)[e] == if Wanted(c, e, wantDirs) then multiset(es2)[e] else 0
    ensures r1 == r2
  {
    assert multiset(r1) == multiset(r2);
    NameKeyedPart(multiset(es1), multiset(r1));
    SortedUnique(r1, r2);
  }

  /** The order in which the operating system lists a directory's entries
      does not change its rendering, since both lists are sorted by name and
      names in one directory are distinct. */
  lemma EnumerationOrderIrrelevant(c: Config, es1: seq<Entry>, es2: seq<Entry>, prefix: string)
    requires multiset(es1) == multiset(es2)
    requires NameKeyed(multiset(es1))
    ensures BuildTree(c, Readable(es1), prefix) == BuildTree(c, Readable(es2), prefix)
  {
    SortedKindDetermined(c, es1, es2, true);
    SortedKindDetermined(c, es1, es2, false);
    ReadableSplit(c, es1, prefix);
    ReadableSplit(c, es2, prefix);
  }

  // ---------------------------------------------------------------------
  // get_tree_info and file_tree_display
  // ---------------------------------------------------------------------

  /** The first line of the tree text: the root's name and a slash. */
  function Header(c: Config): string
  {
    PathName(c.rootPath) + "/"
  }

  /** `get_tree_info`: the header, then the yielded lines, joined by `\n`
      with no trailing newline. */
  function TreeInfo(c: Config, lines: seq<string>): (info: string)
    ensures |lines| == 0 ==> info == Header(c)
    ensures |lines| > 0 ==> Header(c) + "\n" <= info
  {
    Text.Join([Header(c)] + lines, "\n")
  }

  /** When no name holds a newline, splitting the tree text at newlines gives
      back the header and the lines, and the text holds exactly one newline
      per yielded line. */
  lemma TreeInfoLines(c: Config, lines: seq<string>)
    requires '\n' !in PathName(c.rootPath)
    requires forall i | 0 <= i < |lines| :: '\n' !in lines[i]
    ensures Text.SplitOn(TreeInfo(c, lines), '\n') == [Header(c)] + lines
    ensures Text.Count(TreeInfo(c, lines), '\n') == |lines|
  {
    var all := [Header(c)] + lines;
    assert forall i | 0 <= i < |all| :: '\n' !in all[i] by {
      forall i | 0 <= i < |all| ensures '\n' !in all[i] {
        if i == 0 {
          assert all[0] == PathName(c.rootPath) + ['/'];
        } else {
          assert all[i] == lines[i - 1];
        }
      }
    }
    Text.SplitOnJoin(all, '\n');
    Text.JoinCount(all, '\n');
  }

  /** What `file_tree_display` hands back and what it sends to its sinks. */
  datatype Outcome = Outcome(
    returned: string,
    written: Option<(string, string)>,  // (output path, contents)
    printed: Option<string>)

  datatype Failure = NotADirectoryError(message: string)

  function NotADirectoryMessage(path: string): string
  {
    "The path '" + path + "' is not a directory."
  }

  /** `file_tree_display`. `root` is the root as the filesystem presents it:
      None when it is not a directory, otherwise its listing. With
      `save2file` the tree is written to the output path and the path is
      returned; otherwise the tree text is returned and printed only when
      `printout` is set. */
  function Display(c: Config, root: Option<Listing>): (r: Result<Outcome, Failure>)
    ensures root.None? <==> r.Err?
    ensures r.Err? ==> r.error.message == NotADirectoryMessage(c.rootPath)
    ensures r.Ok? && c.save2file ==>
              && r.value.returned == FormatOutPath(c)
              && r.value.written == Some((FormatOutPath(c), TreeInfo(c, BuildTree(c, root.value, ""))))
              && r.value.printed.None?
    ensures r.Ok? && !c.save2file ==>
              && r.value.returned == TreeInfo(c, BuildTree(c, root.value, ""))
              && r.value.written.None?
              && (r.value.printed.Some? <==> c.printout)
              && (c.printout ==> r.value.printed.value == r.value.returned)
  {
    match root
    case None => Err(NotADirectoryError(NotADirectoryMessage(c.rootPath)))
    case Some(listing) =>
      var info := TreeInfo(c, BuildTree(c, listing, ""));
      if c.save2file then
        var out := FormatOutPath(c);
        Ok(Outcome(out, Some((out, info)), None))
      else
        Ok(Outcome(info, None, if c.printout then Some(info) else None))
  }

  /** The returned text lists the tree: its first line is the root's name
      with a slash, and below it come the lines of the root listing. */
  lemma DisplayText(c: Config, listing: Listing)
    requires !c.save2file
    requires '\n' !in PathName(c.rootPath)
    requires forall i | 0 <= i < |BuildTree(c, listing, "")| :: '\n' !in BuildTree(c, listing, "")[i]
    ensures Display(c, Some(listing)).Ok?
    ensures Text.SplitOn(Display(c, Some(listing)).value.returned, '\n') == [Header(c)] + BuildTree(c, listing, "")
  {
    TreeInfoLines(c, BuildTree(c, listing, ""));
  }

  // ---------------------------------------------------------------------
  // Small listings
  // ---------------------------------------------------------------------

  /** A listing holding just one kept file renders as that file's line. */
  lemma SingleFile(c: Config, name: string, prefix: string)
    requires Kept(c, File(name))
    ensures BuildTree(c, Readable([File(name)]), prefix) == [prefix + Unit(c) + name]
  {
    var es := [File(name)];
    assert Select(c, es, true) == [];
    assert Select(c, es, false) == es;
    assert SortedDirs(c, es) == [];
    assert SortedFiles(c, es) == es;
  }

  /** A listing holding just one kept directory renders as its block. */
  lemma SingleDirectory(c: Config, name: string, l: Listing, prefix: string)
    requires Kept(c, Dir(name, l))
    ensures BuildTree(c, Readable([Dir(name, l)]), prefix) ==
            [prefix + Unit(c) + name + "/"] + BuildTree(c, l, prefix + Unit(c))
  {
    var es := [Dir(name, l)];
    assert Select(c, es, true) == es;
    assert Select(c, es, false) == [];
    assert SortedDirs(c, es) == es;
    assert SortedFiles(c, es) == [];
    var blocks := DirBlocks(c, es, prefix);
    assert Flatten(blocks) == blocks[0] + Flatten(blocks[1..]);
    ReadableSplit(c, es, prefix);
  }
}
