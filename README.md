# centerpiece launcher core in Dafny

This project models three pieces of the centerpiece application launcher and proves properties about them.

- **The clock plugin worker** (`client/src/plugin/clock.rs`). It registers once with the controller by sending a `RegisterPlugin` message. It then handles a stream of requests: `Search(q)`, `Timeout` and `Activate(_)`. Each search pushes one `Clear` and then one `AppendEntry` per filtered entry onto a bounded outgoing mailbox. It stops at the first message the full mailbox refuses.
- **The application list** (`src-tauri/src/applications.rs`):
  - collecting the `.desktop` paths from the directories in `XDG_DATA_DIRS`;
  - turning one desktop file into a launcher item with five regex lookups, the file name taken from the regex capture as written, with a corrected variant beside it;
  - building the "Apps" group by reversing the items, stable-sorting them by lower-cased title and dropping adjacent duplicates.
- **The git-repositories plugin** (`client/src/plugin/git_repositories.rs`). It gives one entry per indexed path. The title abbreviates the first occurrence of `$HOME` to `~`, with the semantics of Rust's `str::replacen(.., 1)`.

Modules:

| module | file | what it holds |
|---|---|---|
| `Wrappers` | wrappers.dfy | `Option` |
| `Text` | text.dfy | the `str` operations the core uses, as string functions: substring search, the extent of a regex `.*`, `ends_with`, `split`, `replacen(.., 1)` |
| `Model` | model.dfy | `Entry`, `Plugin`, `PluginRequest`, `Message` |
| `Mailboxes` | mailbox.dfy | the bounded mailbox, a class holding a `seq` and a capacity |
| `Clock` | clock.dfy | a pure specification of the worker (`Worker`, `Step`, `Serve`) and the imperative `ClockPlugin` class, whose methods are proved against it |
| `Sorting` | sorting.dfy | Rust's `Ord` on `str`, a stable sort, `dedup_by`, and the lemmas about them (generic in the key) |
| `Applications` | applications.dfy | `get_desktop_file_paths` as a method with nested loops, `to_list_item`, and `get_applications_group` |
| `GitRepositories` | git_repositories.dfy | `new` and `entries` |

Inputs that stand in for the environment:

- **Clock.** Each turn of the worker loop receives a `Tick`: the request plus a `ClockReading`. A `ClockReading` holds the two formatted titles as opaque strings. The entry filter `crate::plugin::utils::search` is a function value given to the worker. Nothing is assumed about it.
- **Applications.** `XDG_DATA_DIRS` is a string. The directory walk is a function from a directory to the items it yields. Reading a file is a function from a path to its contents.
- **Git repositories.** The index file is given as the list of paths. `HOME` is a string, and `""` stands for "unset".

The crate modules `crate::model`, `crate::types`, `crate::plugin::utils` and `crate::Message` are not part of this model. Their shapes are taken from how the three core files use them.

## Model

| member | source | states |
|---|---|---|
| Text.LineEnd | src-tauri/src/applications.rs:45 | `.*` starting at `p` extends to the first line feed at or after `p`, or to the end; no line feed lies in between |
| Text.Split | src-tauri/src/applications.rs:15 | `split(":")` gives at least one piece, and no piece contains the separator |
| Text.JoinSplit | src-tauri/src/applications.rs:15 | splitting loses nothing: joining the pieces with the separator gives back the string |
| Text.ReplaceFirst | client/src/plugin/git_repositories.rs:34 | `replacen(pat, rep, 1)`: without an occurrence the string is unchanged; otherwise the leftmost occurrence is replaced by `rep` and the text before and after it is kept |
| Text.ReplaceFirstEmptyPattern | client/src/plugin/git_repositories.rs:29-34 | the empty pattern occurs at index 0, so `replacen("", rep, 1)` prefixes the string with `rep` |
| Text.ReplaceFirstKeepsLaterOccurrences | client/src/plugin/git_repositories.rs:34 | only the first occurrence is replaced: a later, non-overlapping occurrence survives in the result, shifted by the change in length |
| Mailboxes.Mailbox.constructor | client/src/plugin/clock.rs:13-16 | a new mailbox is empty and has the given capacity |
| Mailboxes.Mailbox.TrySend | client/src/plugin/clock.rs:82-84 | `try_send` fails exactly when the mailbox is full; on success the message is appended, and on failure nothing changes |
| Clock.AllEntries | client/src/plugin/clock.rs:42-57 | exactly two entries: "time-entry" with the time title, empty action and meta "Clock Time"; then "date" with the date title, empty action and meta "Clock Date"; the two ids differ |
| Clock.SearchMessages | client/src/plugin/clock.rs:111-129 | what a search tries to send: `Clear("clock")` first, then one `AppendEntry("clock", e)` per filtered entry, in filter order |
| Clock.DeliverSendsPrefix | client/src/plugin/clock.rs:113-129 | sending message by message and stopping at the first refusal sends exactly the longest prefix that fits; it succeeds exactly when that prefix is everything |
| Clock.SearchStepEmits | client/src/plugin/clock.rs:108-131 | a search keeps the entries and sets the last query to `q` whether or not a send fails; on success it appends all the search messages, on failure a proper prefix of them |
| Clock.ActivateChangesNothing | client/src/plugin/clock.rs:102 | `Activate(_)` succeeds, sends nothing and changes no state |
| Clock.TimeoutRefreshes | client/src/plugin/clock.rs:98-101 | `Timeout` replaces the entries with those of the new clock reading, keeps the last query, and sends the search messages for the new entries and the old query; it fails exactly when they do not fit, and then a proper prefix of them is sent, with the refreshed entries kept |
| Clock.SearchTwiceSameMessages | client/src/plugin/clock.rs:108-131 | two searches in a row for the same query, when both fit, send the same messages twice |
| Clock.ServeTracksQueryAndEntries | client/src/plugin/clock.rs:70-103 | after any sequence of requests, whatever sends failed, the last query is that of the latest `Search` (or the initial one), and the entries are those of the latest `Timeout` (or the initial ones) |
| Clock.ServeAppendsWithinCapacity | client/src/plugin/clock.rs:70-78 | serving only appends to the mailbox, and never fills it beyond its capacity |
| Clock.ClockPlugin.constructor | client/src/plugin/clock.rs:23-40 | the initial record has id "clock", priority 10 and the clock title; the entries are those of the reading at start; the last query is empty |
| Clock.ClockPlugin.RegisterPlugin | client/src/plugin/clock.rs:81-87 | registration sends exactly one `RegisterPlugin` carrying the whole record when the mailbox has room, and fails otherwise |
| Clock.ClockPlugin.Search | client/src/plugin/clock.rs:108-132 | sets `last_query`, keeps the record, appends exactly the first `min(n, room)` search messages, and succeeds exactly when all `n` fit; this agrees with `SearchStep` |
| Clock.ClockPlugin.Update | client/src/plugin/clock.rs:89-106 | one request changes the state and the mailbox exactly as `Step` says |
| Clock.ClockPlugin.Run | client/src/plugin/clock.rs:60-79 | the status is `Exited(1)` exactly when the mailbox is full at registration, and that changes nothing; otherwise the status is `Serving(|ticks|)`: every request is handled, whether or not its sends fail, and the final state is `Serve` of the registered state |
| Sorting.SortBySortsAndPermutes | src-tauri/src/applications.rs:123 | the sort's result is ordered non-decreasingly by key and is a permutation of its input |
| Sorting.SortByStable | src-tauri/src/applications.rs:123 | the sort is stable: the elements with any given key keep their relative order |
| Sorting.DedupBySubset | src-tauri/src/applications.rs:124 | `dedup_by` only removes elements |
| Sorting.DedupByKeepsKeys | src-tauri/src/applications.rs:124 | every key of the input still has an element after `dedup_by` |
| Sorting.DedupBySorted | src-tauri/src/applications.rs:124 | on a sorted input, `dedup_by` leaves a sorted list with pairwise distinct keys, and each element kept is the first one with its key |
| Sorting.ReverseSortDedup | src-tauri/src/applications.rs:120-124 | reverse, sort, dedup gives a sorted list with pairwise distinct keys; every key of the input occurs in it, and every element of it comes from the input |
| Sorting.ReverseSortDedupKeepsLast | src-tauri/src/applications.rs:120-124 | among input elements sharing a key, the one kept is the last in input order |
| Applications.DesktopPathsExactly | src-tauri/src/applications.rs:13-39 | a path is collected if and only if it ends in ".desktop" and some directory's walk yielded it |
| Applications.GetDesktopFilePaths | src-tauri/src/applications.rs:13-39 | the nested loops collect exactly the `.desktop` paths, directory by directory in walk order; unreadable entries and non-UTF-8 paths are skipped |
| Applications.NameValue | src-tauri/src/applications.rs:52-58 | `\nName=(.*)`: no name without a "\nName=", so a `Name=` on line one does not count; otherwise the text after the first "\nName=" up to the next line feed or the end |
| Applications.FileName | src-tauri/src/applications.rs:85-93 | `/([^/]+).desktop` as the regex reads it: no capture without a match; otherwise the capture of the leftmost match, taking the longest capture at that start |
| Applications.FileNameOfLastSegment | src-tauri/src/applications.rs:49 | when the regex's only match in `dir/name.desktop` is the last segment, it captures `name` |
| Applications.FileNameMatchesDirectory | src-tauri/src/applications.rs:49 | on `/a-desktop/b.desktop` the regex captures "a", the start of the directory's name |
| Applications.FileNameMatchesParentDirectory | src-tauri/src/applications.rs:49 | the unescaped `.` also matches '/': on `/a/desktop-x/b.desktop` the regex captures "a", the directory above the one holding the file |
| Applications.FileStem | src-tauri/src/applications.rs:85-95 | the corrected file id: a non-empty name without '/' such that the path is `dir/name.desktop` |
| Applications.FileStemOfLastSegment | src-tauri/src/applications.rs:85-95 | for every path `dir/name.desktop` with a non-empty `name` without '/', the file id is `name`, whatever `dir` holds |
| Applications.FileStemOfTrapPath | src-tauri/src/applications.rs:85-95 | the file id of `/a-desktop/b.desktop` is "b" |
| Applications.FileNameAgreesWithFileStem | src-tauri/src/applications.rs:85-95 | where the regex's only match is the last segment, the regex capture and the file id agree |
| Applications.ToListItem | src-tauri/src/applications.rs:41-111 | as written: an item exists exactly when there is a "\nName=", a "\nExec=", no "\nNoDisplay=true", no "\nHidden=true", a "\nType=Application", and the file-name regex matches the path; its title is the text of the first `Name=` line; it has one action: key "↵", text "open", `sh -c "gtk-launch <capture>"` with the regex capture `FileName(path)` |
| Applications.CorrectedToListItem | src-tauri/src/applications.rs:85-95 | the corrected item: the same conditions with the file id `FileStem` in place of the regex; the same title, the text of the first `Name=` line; the launch name is `name` for the path `dir/name.desktop` |
| Applications.ToListItemOfLastSegment | src-tauri/src/applications.rs:85-95 | where the regex's only match is the last segment `name.desktop`, the item as written launches `name` and equals the corrected item |
| Applications.ToListItemOfTrapPath | src-tauri/src/applications.rs:85-95 | on `/a-desktop/b.desktop`, a valid file's item as written launches "a"; the corrected item exists, has the same title and launches "b" |
| Applications.ParsedExactly | src-tauri/src/applications.rs:115-119 | the parsed items are exactly those that some path yields |
| Applications.GetApplicationsGroup | src-tauri/src/applications.rs:113-131 | the group is "Apps" with icon "Rocket". Its items are sorted by lower-cased title, and no two share one. Every lower-cased title of a parsed item occurs, and every item is a parsed one. Among parsed items whose lower-cased titles are equal, the one from the latest path in scan order wins |
| GitRepositories.CollectEntries | client/src/plugin/git_repositories.rs:31-43 | the closure never returns `None`, so `filter_map` keeps one entry per path, in path order |
| GitRepositories.New | client/src/plugin/git_repositories.rs:25-46 | one entry per indexed path, in order. Its id is the path, unchanged. Its title is the path with the first `home` replaced by "~". Its action is "focus" and its meta "windows" |
| GitRepositories.Entries | client/src/plugin/git_repositories.rs:21-23 | returns the stored entries unchanged |
| GitRepositories.TitlesAbbreviateHome | client/src/plugin/git_repositories.rs:21-34 | the stored entries' titles: a path without `home` is shown unchanged; otherwise only its first occurrence becomes "~" and the rest of the path is kept |
| GitRepositories.HomeUnsetPrefixesTilde | client/src/plugin/git_repositories.rs:29-34 | with `HOME` unset, every title is "~" followed by the path |

The plugin identity constants are `Clock.Id = "clock"`, `Clock.Priority = 10` and `Clock.Title = "󰅐 Clock"` (client/src/plugin/clock.rs:33-35). The git ones are `GitRepositories.Id = "git-repositories"`, `GitRepositories.Priority = 28` and `GitRepositories.Title = "󰘬 Git Repositories"` (client/src/plugin/git_repositories.rs:9-19).

## Left out

- `ClockPlugin::spawn`, the iced subscription and the async runtime are left out. The one-second receive timeout is the `Timeout` request variant, not timing.
- The request channel `plugin_channel_in` is left out. The requests arrive as the `ticks` given to `Run`.
- The request handle `app_channel_out` inside the plugin record is left out. `Plugin` carries id, priority, title and entries.
- `chrono::Local::now()` and its `%H:%M:%S` / `%A, %_d. %B %Y` formatting are left out. The titles are opaque strings in `ClockReading`.
- `crate::plugin::utils::search` and `read_index_file` are not part of this model. They are a function parameter and a list of paths.
- Logging (`log::error!`, `log::warn!`) is left out. It has no effect on state.
- `std::process::exit(1)` is modelled as the result `Exited(1)`.
- The controller that takes messages out of the mailbox at the same time is left out. Without it, a search's outcome depends only on the room left, so the model pins it down exactly.
- `try_send` also fails on a disconnected receiver. This is not modelled.
- The `futures` channel's real capacity is its buffer plus one slot per sender. The model uses a single `capacity`.
- Clock.ClockPlugin.Run: `main` never returns. The model covers any finite prefix of the request stream.
- The directory walk (`WalkDir`, `follow_links`) and file reading are inputs. So are the panics of `XDG_DATA_DIRS.unwrap()` and `fs::read_to_string(..).unwrap()`: reading is a total function, and `XDG_DATA_DIRS` is always set.
- Sorting.SortBy: Rust's `sort_by` algorithm is not modelled. It is stable, and every stable sort by the same key gives the same list, so insertion sort stands in for it.
- Applications.SortKey: `to_lowercase` is Unicode lower-casing. The model lower-cases ASCII letters only. All the sort and dedup lemmas hold for any key function.
- The corrected `CorrectedToListItem` is not used to build the "Apps" group: `GetApplicationsGroup` uses `ToListItem` as written, as the program does. The sort and dedup lemmas it relies on hold for any item list.
- The value captured by `\nExec=(.*)` is never used by the source. Only its presence is modelled.
- `GitRepositoriesPlugin::activate` is left out. It spawns `alacritty`, `sublime_text` and `sublime_merge`, then sends `Exit`. These are OS side effects.
- src-tauri/src/main.rs and src/main.rs are left out. They are Tauri/GTK bootstrapping with no logic of their own.
- The plugin priority is Rust's `u32`; it is modelled as `nat`. Both values, 10 and 28, fit.

## Findings

| source | as written | input that shows it | evidently intended | confidence | as-written member | corrected member |
|---|---|---|---|---|---|---|
| src-tauri/src/applications.rs:49 | `/([^/]+).desktop` is searched over the whole path and its `.` is unescaped, and it also matches `/`, so the leftmost match can start at any path segment followed, one character later, by "desktop": a directory whose name contains "desktop" after at least two characters (one for the capture, one for the `.`), or a directory followed by one whose name begins with "desktop" | `/a-desktop/b.desktop` captures `a`, so the item launches `gtk-launch a`; `/a/desktop-x/b.desktop` also captures `a`, the directory above the file's own, and so would `share` in `/usr/share/desktop-x/foo.desktop` | the desktop file id, i.e. the last path segment without ".desktop" (`b`), as with `/([^/]+)\.desktop$` | medium; not executed | Applications.FileNameMatchesDirectory, Applications.FileNameMatchesParentDirectory, Applications.ToListItemOfTrapPath | Applications.FileStem, Applications.CorrectedToListItem |
