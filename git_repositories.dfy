/**
 * The git-repositories plugin (client/src/plugin/git_repositories.rs): one
 * entry per indexed repository path, shown with the home directory
 * abbreviated to "~".
 *
 * The index file and the `HOME` variable are inputs: `New` receives the
 * paths read from the index and the value of `HOME` ("" when it is unset).
 */
module GitRepositories {
  import opened Wrappers
  import opened Text
  import opened Model

  const Id: string := "git-repositories"
  const Priority: nat := 28
  const Title: string := "\U{F062C} Git Repositories"

  datatype GitRepositoriesPlugin = GitRepositoriesPlugin(entries: seq<Entry>)

  /** The `filter_map` closure of `new`: it never drops a path. */
  function EntryFor(path: string, home: string): Option<Entry> {
    Some(Entry(path, ReplaceFirst(path, home, "~"), "focus", "windows"))
  }

  /** `filter_map(..).collect()`: the `Some`s, in path order. */
  function CollectEntries(paths: seq<string>, home: string): (r: seq<Entry>)
    decreases |paths|
    ensures |r| == |paths|
    ensures forall i :: 0 <= i < |paths| ==> Some(r[i]) == EntryFor(paths[i], home)
  {
    if paths == [] then []
    else
      var rest := CollectEntries(paths[1..], home);
      match EntryFor(paths[0], home)
      case None => rest
      case Some(e) => [e] + rest
  }

  /**
   * `new`: exactly one entry per indexed path, in index order; its id is the
   * path, its title the path with the first occurrence of `home` replaced by
   * "~", its action "focus" and its meta "windows".
   */
  function New(paths: seq<string>, home: string): (p: GitRepositoriesPlugin)
    ensures |p.entries| == |paths|
    ensures forall i :: 0 <= i < |paths| ==>
      && p.entries[i].id == paths[i]
      && p.entries[i].title == ReplaceFirst(paths[i], home, "~")
      && p.entries[i].action == "focus"
      && p.entries[i].meta == "windows"
  {
    GitRepositoriesPlugin(CollectEntries(paths, home))
  }

  /** `entries`: a copy of the stored entries. */
  function Entries(p: GitRepositoriesPlugin): (r: seq<Entry>)
    ensures r == p.entries
  {
    p.entries
  }

  /**
   * The titles abbreviate only the first occurrence of the home directory:
   * a path without it is shown as it is, and one with it is shown with that
   * occurrence turned into "~" and everything after it untouched.
   */
  lemma TitlesAbbreviateHome(paths: seq<string>, home: string, i: nat)
    requires i < |paths|
    ensures var title := Entries(New(paths, home))[i].title;
      && (!Contains(paths[i], home) ==> title == paths[i])
      && (forall k: nat :: IsFirstOccurrence(paths[i], home, k) ==>
            title == paths[i][..k] + "~" + paths[i][k + |home|..])
  {
    var s := paths[i];
    forall k: nat | IsFirstOccurrence(s, home, k)
      ensures ReplaceFirst(s, home, "~") == s[..k] + "~" + s[k + |home|..]
    {
      assert FindFirst(s, home) == Some(k);
    }
  }

  /** With `HOME` unset the pattern is empty, and every title is "~" followed by the path. */
  lemma HomeUnsetPrefixesTilde(paths: seq<string>)
    ensures forall i :: 0 <= i < |paths| ==> Entries(New(paths, ""))[i].title == "~" + paths[i]
  {
    forall i | 0 <= i < |paths| ensures Entries(New(paths, ""))[i].title == "~" + paths[i] {
      ReplaceFirstEmptyPattern(paths[i], "~");
    }
  }
}
