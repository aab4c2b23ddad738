/**
 * The application list of the launcher (src-tauri/src/applications.rs):
 * which desktop files are found, how one is turned into a launcher item, and
 * how the items are ordered and de-duplicated.
 *
 * The file system is an input: `XDG_DATA_DIRS` is a string, the recursive
 * directory walk is a function from a directory to what it yields, and
 * reading a file is a function from its path to its contents.
 */
module Applications {
  import opened Wrappers
  import opened Text
  import opened Sorting

  datatype ListItemActionCommand = ListItemActionCommand(program: string, args: seq<string>)
  datatype ListItemAction = ListItemAction(keys: seq<string>, text: string, command: ListItemActionCommand)
  datatype ListItem = ListItem(title: string, actions: seq<ListItemAction>)
  datatype ItemGroup = ItemGroup(name: string, icon: string, items: seq<ListItem>)

  /** What the directory walk yields for one entry: an error, a path that is not UTF-8, or a path. */
  datatype WalkItem = Unreadable | NonUnicode | Found(path: string)

  // ----- get_desktop_file_paths

  /** What one walked entry contributes: its path, if it names a `.desktop` file. */
  function Keep(item: WalkItem): seq<string> {
    if item.Found? && EndsWith(item.path, ".desktop") then [item.path] else []
  }

  function DesktopPathsIn(items: seq<WalkItem>): seq<string>
    decreases |items|
  {
    if items == [] then [] else DesktopPathsIn(items[..|items| - 1]) + Keep(items[|items| - 1])
  }

  /** The `.desktop` paths of all directories, directory by directory, in walk order. */
  function DesktopPaths(dirs: seq<string>, walk: string -> seq<WalkItem>): seq<string>
    decreases |dirs|
  {
    if dirs == [] then []
    else DesktopPaths(dirs[..|dirs| - 1], walk) + DesktopPathsIn(walk(dirs[|dirs| - 1]))
  }

  lemma {:induction false} DesktopPathsInExactly(items: seq<WalkItem>)
    decreases |items|
    ensures forall p :: p in DesktopPathsIn(items) <==> Found(p) in items && EndsWith(p, ".desktop")
  {
    if items != [] {
      var init := items[..|items| - 1];
      DesktopPathsInExactly(init);
      assert items == init + [items[|items| - 1]];
    }
  }

  /**
   * The walk keeps exactly the `.desktop` paths: a path is collected if and
   * only if it ends in ".desktop" and some directory's walk yielded it.
   */
  lemma {:induction false} DesktopPathsExactly(dirs: seq<string>, walk: string -> seq<WalkItem>)
    decreases |dirs|
    ensures forall p :: p in DesktopPaths(dirs, walk) <==>
      EndsWith(p, ".desktop") && exists d :: d in dirs && Found(p) in walk(d)
  {
    if dirs != [] {
      var init := dirs[..|dirs| - 1];
      var last := dirs[|dirs| - 1];
      DesktopPathsExactly(init, walk);
      DesktopPathsInExactly(walk(last));
      assert dirs == init + [last];
      forall p | EndsWith(p, ".desktop") && (exists d :: d in dirs && Found(p) in walk(d))
        ensures p in DesktopPaths(dirs, walk)
      {
        var d :| d in dirs && Found(p) in walk(d);
        if d != last {
          assert d in init;
        }
      }
    }
  }

  /**
   * `get_desktop_file_paths`: walk every directory named in `xdgDataDirs`
   * (split at ':'), skip entries that cannot be read or whose path is not
   * UTF-8, and collect the paths ending in ".desktop".
   */
  method GetDesktopFilePaths(xdgDataDirs: string, walk: string -> seq<WalkItem>) returns (paths: seq<string>)
    ensures paths == DesktopPaths(Split(xdgDataDirs, ':'), walk)
    ensures forall p :: p in paths <==>
      EndsWith(p, ".desktop") && exists d :: d in Split(xdgDataDirs, ':') && Found(p) in walk(d)
  {
    var dirs := Split(xdgDataDirs, ':');
    paths := [];
    for d := 0 to |dirs|
      invariant paths == DesktopPaths(dirs[..d], walk)
    {
      var items := walk(dirs[d]);
      for k := 0 to |items|
        invariant paths == DesktopPaths(dirs[..d], walk) + DesktopPathsIn(items[..k])
      {
        assert items[..k + 1][..k] == items[..k];
        var item := items[k];
        if item.Unreadable? {
          continue;
        }
        if item.NonUnicode? {
          continue;
        }
        if EndsWith(item.path, ".desktop") {
          paths := paths + [item.path];
        }
      }
      assert items[..|items|] == items;
      assert dirs[..d + 1][..d] == dirs[..d];
    }
    assert dirs[..|dirs|] == dirs;
    DesktopPathsExactly(dirs, walk);
  }

  // ----- The regex lookups of to_list_item

  const NameKey: string := "\nName="
  const ExecKey: string := "\nExec="
  const NoDisplayKey: string := "\nNoDisplay=true"
  const HiddenKey: string := "\nHidden=true"
  const TypeApplicationKey: string := "\nType=Application"

  /**
   * `\nName=(.*)`: the text after the first "\nName=" up to the next line
   * feed or the end. A `Name=` at the very start of the file has no line feed
   * before it and does not count.
   */
  function NameValue(contents: string): (r: Option<string>)
    ensures r.None? <==> !Contains(contents, NameKey)
    ensures r.Some? ==> exists k: nat ::
      IsFirstOccurrence(contents, NameKey, k) &&
      r.value == contents[k + |NameKey|..LineEnd(contents, k + |NameKey|)]
  {
    match FindFirst(contents, NameKey)
    case None => None
    case Some(k) => Some(contents[k + |NameKey|..LineEnd(contents, k + |NameKey|)])
  }

  /**
   * `/([^/]+).desktop` matches `s[i..j + 8]` with the capture `s[i + 1..j]`:
   * a '/', at least one character other than '/', one character other than a
   * line feed (the unescaped `.`), then "desktop".
   */
  ghost predicate FileNameMatch(s: string, i: nat, j: nat) {
    && i + 1 < j && j + 8 <= |s|
    && s[i] == '/'
    && (forall k :: i + 1 <= k < j ==> s[k] != '/')
    && s[j] != '\n' && s[j + 1..j + 8] == "desktop"
  }

  /**
   * The match the regex reports: the leftmost start, and there the longest
   * capture (greedy `[^/]+`, backing off only as far as needed).
   */
  ghost predicate ReportedMatch(s: string, i: nat, j: nat) {
    && FileNameMatch(s, i, j)
    && (forall i': nat, j': nat :: i' < i ==> !FileNameMatch(s, i', j'))
    && (forall j': nat :: j < j' ==> !FileNameMatch(s, i, j'))
  }

  /** The end of the run of characters other than '/' that starts at `k`. */
  function RunEnd(s: string, k: nat): (e: nat)
    requires k <= |s|
    decreases |s| - k
    ensures k <= e <= |s| && (e == |s| || s[e] == '/')
    ensures forall m :: k <= m < e ==> s[m] != '/'
  {
    if k == |s| || s[k] == '/' then k else RunEnd(s, k + 1)
  }

  /** Backtracking from capture end `hi` downwards to the first end that matches. */
  function CaptureEnd(s: string, i: nat, hi: nat): (r: Option<nat>)
    requires i < |s| && s[i] == '/' && hi <= RunEnd(s, i + 1)
    decreases hi
    ensures r.Some? ==> r.value <= hi && FileNameMatch(s, i, r.value)
    ensures r.Some? ==> forall j: nat :: r.value < j <= hi ==> !FileNameMatch(s, i, j)
    ensures r.None? ==> forall j: nat :: j <= hi ==> !FileNameMatch(s, i, j)
  {
    if hi <= i + 1 then None
    else if hi + 8 <= |s| && s[hi] != '\n' && s[hi + 1..hi + 8] == "desktop" then Some(hi)
    else CaptureEnd(s, i, hi - 1)
  }

  /** The reported match among those starting at or after `from`. */
  function FileNameSpan(s: string, from: nat): (r: Option<(nat, nat)>)
    decreases |s| - from
    ensures r.Some? ==> from <= r.value.0 && FileNameMatch(s, r.value.0, r.value.1)
    ensures r.Some? ==> forall i: nat, j: nat :: from <= i < r.value.0 ==> !FileNameMatch(s, i, j)
    ensures r.Some? ==> forall j: nat :: r.value.1 < j ==> !FileNameMatch(s, r.value.0, j)
    ensures r.None? ==> forall i: nat, j: nat :: from <= i ==> !FileNameMatch(s, i, j)
  {
    if from >= |s| then None
    else if s[from] != '/' then FileNameSpan(s, from + 1)
    else
      var e := RunEnd(s, from + 1);
      match CaptureEnd(s, from, e)
      case Some(j) => Some((from, j))
      case None => FileNameSpan(s, from + 1)
  }

  /** The capture of `/([^/]+).desktop` in `path`, if it matches at all. */
  function FileName(path: string): (r: Option<string>)
    ensures r.None? <==> forall i: nat, j: nat :: !FileNameMatch(path, i, j)
    ensures r.Some? ==> exists i: nat, j: nat :: ReportedMatch(path, i, j) && r.value == path[i + 1..j]
  {
    match FileNameSpan(path, 0)
    case None => None
    case Some((i, j)) =>
      assert ReportedMatch(path, i, j);
      Some(path[i + 1..j])
  }

  /**
   * For a path whose only match is its last segment `name.desktop`, the
   * captured name is `name`.
   */
  lemma FileNameOfLastSegment(dir: string, name: string)
    requires |name| > 0 && '/' !in name
    requires var path := dir + "/" + name + ".desktop";
      forall i: nat, j: nat :: FileNameMatch(path, i, j) ==> i == |dir|
    ensures FileName(dir + "/" + name + ".desktop") == Some(name)
  {
    var path := dir + "/" + name + ".desktop";
    var j := |dir| + 1 + |name|;
    assert path[|dir|] == '/';
    assert path[|dir| + 1..j] == name;
    forall k | |dir| + 1 <= k < j ensures path[k] != '/' {
      assert path[k] == name[k - |dir| - 1];
    }
    assert path[j] == '.' && path[j + 1..j + 8] == "desktop";
    assert FileNameMatch(path, |dir|, j);
    var r := FileName(path);
    var i': nat, j': nat :| ReportedMatch(path, i', j') && r.value == path[i' + 1..j'];
    assert i' == |dir|;
    assert j' == j;
  }

  /** A path whose directory is followed by one whose name begins with "desktop". */
  const NestedTrapPath: string := "/a/desktop-x/b.desktop"

  /** The only match of the regex in `NestedTrapPath` that starts at index 0 ends its capture at 2. */
  lemma NestedTrapPathMatchAtStart(j: nat)
    requires FileNameMatch(NestedTrapPath, 0, j)
    ensures j == 2
  {
    var s := NestedTrapPath;
    assert s[2] == '/';
  }

  /**
   * The unescaped `.` also matches '/': on `NestedTrapPath` the leftmost match
   * is "/a/desktop", so the capture is "a", the name of the directory above
   * the one holding the file.
   */
  lemma FileNameMatchesParentDirectory()
    ensures FileName(NestedTrapPath) == Some("a")
  {
    var s := NestedTrapPath;
    assert s[1..2] == "a";
    assert s[3..10] == "desktop";
    assert FileNameMatch(s, 0, 2);
    var r := FileName(s);
    var i: nat, j: nat :| ReportedMatch(s, i, j) && r.value == s[i + 1..j];
    assert i == 0;
    NestedTrapPathMatchAtStart(j);
  }

  /** Index of the last `c` in `t`. */
  function LastIndexOf(t: string, c: char): (r: Option<nat>)
    decreases |t|
    ensures r.Some? ==> r.value < |t| && t[r.value] == c && forall k :: r.value < k < |t| ==> t[k] != c
    ensures r.None? ==> c !in t
  {
    if t == [] then None
    else if t[|t| - 1] == c then Some(|t| - 1)
    else
      var r := LastIndexOf(t[..|t| - 1], c);
      assert forall k :: 0 <= k < |t| - 1 ==> t[k] == t[..|t| - 1][k];
      r
  }

  /**
   * The desktop file id: the last segment of the path without its
   * ".desktop" suffix. This is what `gtk-launch` expects and what the
   * regex is meant to extract.
   */
  function FileStem(path: string): (r: Option<string>)
    ensures r.Some? ==>
      |r.value| > 0 && '/' !in r.value &&
      exists dir :: path == dir + "/" + r.value + ".desktop"
  {
    if !EndsWith(path, ".desktop") then None
    else
      var t := path[..|path| - 8];
      match LastIndexOf(t, '/')
      case None => None
      case Some(k) =>
        var name := t[k + 1..];
        if |name| == 0 then None
        else
          assert '/' !in name by {
            forall m | 0 <= m < |name| ensures name[m] != '/' {
              assert name[m] == t[k + 1 + m];
            }
          }
          assert path == t[..k] + "/" + name + ".desktop";
          Some(name)
  }

  /** For any path `dir/name.desktop`, the file id is `name`, whatever `dir` holds. */
  lemma FileStemOfLastSegment(dir: string, name: string)
    requires |name| > 0 && '/' !in name
    ensures FileStem(dir + "/" + name + ".desktop") == Some(name)
  {
    var path := dir + "/" + name + ".desktop";
    var t := path[..|path| - 8];
    assert t == dir + "/" + name;
    var r := LastIndexOf(t, '/');
    assert t[|dir|] == '/';
    assert r.Some?;
    assert r.value == |dir|;
    assert t[|dir| + 1..] == name;
  }

  /** A path whose directory name contains "desktop". */
  const TrapPath: string := "/a-desktop/b.desktop"

  /** The only match starting at index 0 of `TrapPath` ends its capture at 2. */
  lemma TrapPathMatchAtStart(j: nat)
    requires FileNameMatch(TrapPath, 0, j)
    ensures j == 2
  {
    var s := TrapPath;
    assert s[10] == '/';
    assert s[j + 1..j + 8][0] == s[j + 1] == 'd';
    assert s[4] != 'd' && s[5] != 'd' && s[6] != 'd' && s[7] != 'd';
    assert s[8] != 'd' && s[9] != 'd' && s[10] != 'd' && s[11] != 'd';
  }

  /**
   * On `TrapPath` the leftmost match starts at the directory: the unescaped
   * `.` matches the '-' of "a-desktop", so the capture is "a" rather than the
   * file's name "b".
   */
  lemma FileNameMatchesDirectory()
    ensures FileName(TrapPath) == Some("a")
  {
    var s := TrapPath;
    assert s[1..2] == "a";
    assert s[3..10] == "desktop";
    assert FileNameMatch(s, 0, 2);
    var r := FileName(s);
    var i: nat, j: nat :| ReportedMatch(s, i, j) && r.value == s[i + 1..j];
    assert i == 0;
    TrapPathMatchAtStart(j);
  }

  /** The file id of `TrapPath` is "b". */
  lemma FileStemOfTrapPath()
    ensures FileStem(TrapPath) == Some("b")
  {
    assert TrapPath == "/a-desktop" + "/" + "b" + ".desktop";
    FileStemOfLastSegment("/a-desktop", "b");
  }

  /**
   * Where the regex's only match is the last segment, it agrees with the
   * file id.
   */
  lemma FileNameAgreesWithFileStem(dir: string, name: string)
    requires |name| > 0 && '/' !in name
    requires var path := dir + "/" + name + ".desktop";
      forall i: nat, j: nat :: FileNameMatch(path, i, j) ==> i == |dir|
    ensures FileName(dir + "/" + name + ".desktop") == FileStem(dir + "/" + name + ".desktop")
  {
    FileNameOfLastSegment(dir, name);
    FileStemOfLastSegment(dir, name);
  }

  // ----- to_list_item

  /** The one action of every item: Enter opens it with `gtk-launch <name>`. */
  function OpenAction(name: string): ListItemAction {
    ListItemAction(["↵"], "open", ListItemActionCommand("sh", ["-c", "gtk-launch " + name]))
  }

  /**
   * The body of `to_list_item` once the file name has been looked up: no
   * item unless there is a `Name=` line and an `Exec=` line, no
   * `NoDisplay=true` or `Hidden=true`, a `Type=Application`, and a file
   * name.
   */
  function ItemFrom(fileName: Option<string>, contents: string): (r: Option<ListItem>)
    ensures r.Some? <==>
      && Contains(contents, NameKey)
      && Contains(contents, ExecKey)
      && !Contains(contents, NoDisplayKey) && !Contains(contents, HiddenKey)
      && Contains(contents, TypeApplicationKey)
      && fileName.Some?
    ensures r.Some? ==> exists k: nat ::
      IsFirstOccurrence(contents, NameKey, k) &&
      r.value.title == contents[k + |NameKey|..LineEnd(contents, k + |NameKey|)]
    ensures r.Some? ==> r.value.actions == [OpenAction(fileName.value)]
  {
    match NameValue(contents)
    case None => None
    case Some(name) =>
      if FindFirst(contents, ExecKey).None? then None
      else if FindFirst(contents, NoDisplayKey).Some? || FindFirst(contents, HiddenKey).Some? then None
      else if FindFirst(contents, TypeApplicationKey).None? then None
      else match fileName
        case None => None
        case Some(f) => Some(ListItem(name, [OpenAction(f)]))
  }

  /**
   * `to_list_item`, given the file's path and contents, as written: the
   * launch name is the regex capture `FileName`, so an item exists only when
   * the regex matches somewhere in the path, and the name is whatever it
   * captured (see `FileNameMatchesDirectory`).
   */
  function ToListItem(path: string, contents: string): (r: Option<ListItem>)
    ensures r.Some? <==>
      && Contains(contents, NameKey)
      && Contains(contents, ExecKey)
      && !Contains(contents, NoDisplayKey) && !Contains(contents, HiddenKey)
      && Contains(contents, TypeApplicationKey)
      && FileName(path).Some?
    ensures r.Some? ==> exists k: nat ::
      IsFirstOccurrence(contents, NameKey, k) &&
      r.value.title == contents[k + |NameKey|..LineEnd(contents, k + |NameKey|)]
    ensures r.Some? ==> r.value.actions == [OpenAction(FileName(path).value)]
  {
    ItemFrom(FileName(path), contents)
  }

  /**
   * `to_list_item` with the corrected file id `FileStem`: the launch name is
   * always the last path segment without ".desktop".
   */
  function CorrectedToListItem(path: string, contents: string): (r: Option<ListItem>)
    ensures r.Some? <==>
      && Contains(contents, NameKey)
      && Contains(contents, ExecKey)
      && !Contains(contents, NoDisplayKey) && !Contains(contents, HiddenKey)
      && Contains(contents, TypeApplicationKey)
      && FileStem(path).Some?
    ensures r.Some? ==> exists k: nat ::
      IsFirstOccurrence(contents, NameKey, k) &&
      r.value.title == contents[k + |NameKey|..LineEnd(contents, k + |NameKey|)]
    ensures r.Some? ==> exists dir, name ::
      && |name| > 0 && '/' !in name && path == dir + "/" + name + ".desktop"
      && r.value.actions == [OpenAction(name)]
  {
    ItemFrom(FileStem(path), contents)
  }

  /**
   * Where the regex's only match is the last segment, the item as written
   * launches that segment's name, and the corrected item is the same item.
   */
  lemma ToListItemOfLastSegment(dir: string, name: string, contents: string)
    requires |name| > 0 && '/' !in name
    requires var path := dir + "/" + name + ".desktop";
      forall i: nat, j: nat :: FileNameMatch(path, i, j) ==> i == |dir|
    ensures var path := dir + "/" + name + ".desktop";
      && (ToListItem(path, contents).Some? ==> ToListItem(path, contents).value.actions == [OpenAction(name)])
      && ToListItem(path, contents) == CorrectedToListItem(path, contents)
  {
    FileNameAgreesWithFileStem(dir, name);
    FileNameOfLastSegment(dir, name);
  }

  /**
   * On `TrapPath`, a valid desktop file becomes an item that launches "a"
   * as written, and "b" once corrected.
   */
  lemma ToListItemOfTrapPath(contents: string)
    requires ToListItem(TrapPath, contents).Some?
    ensures ToListItem(TrapPath, contents).value.actions == [OpenAction("a")]
    ensures CorrectedToListItem(TrapPath, contents).Some?
    ensures CorrectedToListItem(TrapPath, contents).value.actions == [OpenAction("b")]
    ensures CorrectedToListItem(TrapPath, contents).value.title == ToListItem(TrapPath, contents).value.title
  {
    FileNameMatchesDirectory();
    FileStemOfTrapPath();
  }

  // ----- get_applications_group

  function LowerChar(c: char): char {
    if 'A' <= c <= 'Z' then (c as int + 32) as char else c
  }

  /** ASCII lower-casing, standing in for `to_lowercase`. */
  function AsciiLower(s: string): (r: string)
    ensures |r| == |s|
  {
    seq(|s|, i requires 0 <= i < |s| => LowerChar(s[i]))
  }

  /** What items are sorted and de-duplicated by: the lower-cased title. */
  function SortKey(item: ListItem): string {
    AsciiLower(item.title)
  }

  /** `map(to_list_item)`, then only the `Some`s, in path order. */
  function Parsed(paths: seq<string>, read: string -> string): seq<ListItem>
    decreases |paths|
  {
    if paths == [] then []
    else
      var rest := Parsed(paths[1..], read);
      match ToListItem(paths[0], read(paths[0]))
      case None => rest
      case Some(item) => [item] + rest
  }

  /** An item is parsed exactly when one of the paths yields it. */
  lemma {:induction false} ParsedExactly(paths: seq<string>, read: string -> string)
    decreases |paths|
    ensures forall x :: x in Parsed(paths, read) <==>
      exists p :: p in paths && ToListItem(p, read(p)) == Some(x)
  {
    if paths != [] {
      ParsedExactly(paths[1..], read);
      assert paths == [paths[0]] + paths[1..];
      forall x | exists p :: p in paths && ToListItem(p, read(p)) == Some(x)
        ensures x in Parsed(paths, read)
      {
        var p :| p in paths && ToListItem(p, read(p)) == Some(x);
        if p != paths[0] {
          assert p in paths[1..];
        }
      }
    }
  }

  /**
   * `get_applications_group`: parse every desktop file, reverse, sort by
   * lower-cased title, drop adjacent duplicates. The items are sorted, no
   * two share a lower-cased title, every lower-cased title of a parsed item
   * is present, every item is a parsed one, and of parsed items with the same
   * lower-cased title the one from the latest path wins.
   */
  method GetApplicationsGroup(xdgDataDirs: string, walk: string -> seq<WalkItem>, read: string -> string)
    returns (group: ItemGroup)
    ensures group.name == "Apps" && group.icon == "Rocket"
    ensures var parsed := Parsed(DesktopPaths(Split(xdgDataDirs, ':'), walk), read);
      var items := group.items;
      && SortedBy(items, SortKey)
      && (forall i, j :: 0 <= i < j < |items| ==> SortKey(items[i]) != SortKey(items[j]))
      && (forall x :: x in parsed ==> exists i :: 0 <= i < |items| && SortKey(items[i]) == SortKey(x))
      && (forall i :: 0 <= i < |items| ==> items[i] in parsed)
      && (forall i :: 0 <= i < |items| ==>
            var same := Select(parsed, SortKey, SortKey(items[i])); same != [] && items[i] == same[|same| - 1])
  {
    var paths := GetDesktopFilePaths(xdgDataDirs, walk);
    ghost var parsed := Parsed(paths, read);
    var listItems := Reverse(Parsed(paths, read));
    listItems := SortBy(listItems, SortKey);
    listItems := DedupBy(listItems, SortKey);
    ReverseSortDedup(parsed, SortKey);
    ReverseSortDedupKeepsLast(parsed, SortKey);
    group := ItemGroup("Apps", "Rocket", listItems);
  }
}
