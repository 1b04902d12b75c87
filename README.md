# Real-time file viewer: the event pipeline, in Dafny

Two Streamlit pages watch a folder with the watchdog library. Each page shows
the file events it has seen and the folder's contents:

- `file_viewer.py` is the enhanced page.
- `file_viewer_0.py` is the first, plainer page.

Around the UI calls sits a small pipeline, and this project models it.

- The watchdog callback `on_any_event` admits or drops each raw notification.
  The enhanced page drops directories and any path that contains
  `.DS_Store` or `.localized`. It wraps each admitted event with a timestamp.
  The plain page drops only directories and queues the raw event.
- The admitted events wait in a `queue.Queue`.
- On every rerun of the page, while monitoring is on,
  `check_events_and_update` drains that queue into the session's `event_list`.
- The page then renders from `event_list`:
  - the enhanced page shows the events of the last five minutes;
  - the plain page shows every event as one line.
- The folder listing comes in two forms:
  - the enhanced page shows a grid without the two macOS bookkeeping names,
    matched exactly;
  - the plain page shows the regular files, newest first.
- The enhanced page previews the newest listed entry. The entry's suffix
  selects exactly one preview kind.
- The Start/Stop button switches `(monitoring, observer)` between two states.

Modules:

- `Wrappers`: `Option`, used for Python's `None` and for an unset session key.
- `Platform`: the values that watchdog and the filesystem hand in. These are
  a raw event, an opaque observer token, and a directory entry with its name,
  suffix, path, kind, mtime and size.
- `EventQueue`: class `Queue<T>`. It models `queue.Queue` as a
  single-threaded sequence with `Put`, `Empty` and `Get`.
- `MonitorButton`: `ButtonEffect`, the transition of the Start/Stop button,
  which both pages share.
- `FileViewer`: `file_viewer.py`.
- `FileViewer0`: `file_viewer_0.py`.

Both pages mutate the session state in place. Here `SessionState` is a class:

- the queue is a `const` field holding a `Queue` object;
- `event_list`, `observer` and `monitoring` are fields that the methods
  reassign.

Each drain is a `while` loop over `Empty`/`Get`. Its invariant is
`eventList == old(eventList) + old(queue)[..k] && queue == old(queue)[k..]`.
The loops that render the folder listing and the event lines are `for`
loops. They accumulate rows or lines and are proved against specification
functions. Filters written as comprehensions are recursive functions, with
lemmas that:

- they keep the order, because each one splits along a concatenation;
- they keep exactly the right elements, stated as membership if and only if
  the element qualifies.

A few facts about the code shape the model:

- The queue is an unbounded `queue.Queue()`, so `put` never blocks.
- The ignore list is the hard-coded pair `.DS_Store`/`.localized`.
  `on_any_event` matches it as substrings of the whole path, and the listings
  match it as exact names.
- `event_type` stays watchdog's string, passed through unchanged.

On the plain page, an empty folder input falls back to the literal string
`"~/Downloads"`. That path is passed to `os.path.exists` without `~`
expansion. `DefaultPath` models it exactly as written.

## Model

| member | source | states |
|---|---|---|
| `EventQueue.Queue.constructor` | file_viewer.py:84-85 | a new queue holds nothing |
| `EventQueue.Queue.Put` | file_viewer.py:48 | `put` appends the item at the back; the queue is unbounded, so this always succeeds |
| `EventQueue.Queue.Empty` | file_viewer.py:186 | `empty()` is true exactly when no item is pending |
| `EventQueue.Queue.Get` | file_viewer.py:187 | `get()` returns the oldest item and removes only that item |
| `MonitorButton.ButtonEffect` | file_viewer.py:216-228 | definition of the Start/Stop transition shared by both pages; both `OnMonitoringButton` methods are proved against it |
| `FileViewer.Wrap` | file_viewer.py:26-29 | the wrapper carries the event's `event_type` and `src_path` unchanged, stamped with the current time |
| `FileViewer.ToDict` | file_viewer.py:31-36 | `to_dict` has exactly the keys `event_type`, `src_path` and `timestamp`, each mapped to the matching field |
| `FileViewer.ToDictInjective` | file_viewer.py:31-36 | two wrappers with the same dictionary are the same wrapper, so the dictionary loses nothing |
| `FileViewer.Contains` | file_viewer.py:46 | definition of Python's `in` on strings; its meaning is fixed by `FileViewer.ContainsIff` |
| `FileViewer.ContainsIff` | file_viewer.py:46 | the `ignored in src_path` test holds exactly when the name occurs at some position of the path |
| `FileViewer.Admits` | file_viewer.py:46 | definition of the admission test; its meaning is fixed by `FileViewer.AdmitsIff` and `FileViewer.FileEventHandler.OnAnyEvent` |
| `FileViewer.AdmitsIff` | file_viewer.py:45-46 | an event is admitted iff it is not a directory and neither ".DS_Store" nor ".localized" occurs anywhere in its path |
| `FileViewer.Listed` | file_viewer.py:101 | definition of the exact-name listing test; its meaning is fixed by `FileViewer.ListedEntries`, `FileViewer.IgnoredNameNeverAdmitted` and `FileViewer.AdmissionStricterThanListing` |
| `FileViewer.IgnoredNameNeverAdmitted` | file_viewer.py:46 | an event about a file whose name is exactly an ignored name is never admitted, whatever its folder |
| `FileViewer.AdmissionStricterThanListing` | file_viewer.py:101 | the converse fails: ".DS_Store.bak" passes the exact-name listing filter, yet its events fail the substring test |
| `FileViewer.FileEventHandler.constructor` | file_viewer.py:41-43 | the handler holds the queue it was given |
| `FileViewer.FileEventHandler.OnAnyEvent` | file_viewer.py:45-50 | an admitted event puts exactly one wrapper of it at the back of the queue; otherwise the queue is unchanged |
| `FileViewer.IsRecent` | file_viewer.py:122-125 | definition of "at or after now minus five minutes"; its meaning is fixed by `FileViewer.RecentEventsMember` |
| `FileViewer.RecentEventsAppend` | file_viewer.py:123-126 | the recent-events comprehension keeps list order: on `a + b` it gives the result for `a` followed by the result for `b` |
| `FileViewer.RecentEventsMember` | file_viewer.py:123-126 | an event's dictionary is in the window iff the event is in the list and its timestamp is at or after now minus 5 minutes |
| `FileViewer.RecentEventsNoneIff` | file_viewer.py:123-131 | the window is empty iff no event of the list is recent |
| `FileViewer.RecentEventsAllKept` | file_viewer.py:123-126 | when every event is recent, the window is every event's dictionary, in order |
| `FileViewer.RecentEvents` | file_viewer.py:123-126 | the window is never longer than the event list |
| `FileViewer.DisplayRecentEvents` | file_viewer.py:118-131 | the view is empty iff the list is empty; it shows the notice iff the list is non-empty and no event is recent; otherwise it shows the non-empty window |
| `FileViewer.ListedEntries` | file_viewer.py:140-141 | an entry is kept iff its name is not exactly ".DS_Store" or ".localized" |
| `FileViewer.ListedEntriesAppend` | file_viewer.py:140-141 | the name filter keeps the listing order |
| `FileViewer.ToRow` | file_viewer.py:102-108 | definition of one grid row; its meaning is fixed by `FileViewer.TreeRows` |
| `FileViewer.TreeRows` | file_viewer.py:99-108 | the loop yields one row per listed entry, in order: name, "Folder"/"File" by `is_dir`, mtime, size, path; no row has an ignored name |
| `FileViewer.DisplayFileListingAsTree` | file_viewer.py:95-114 | a missing folder gives the error and nothing else; otherwise the grid holds exactly the rows above |
| `FileViewer.LatestIndex` | file_viewer.py:147 | `max` by mtime picks an entry no older than any other, and the first such entry when times tie |
| `FileViewer.PreviewFor` | file_viewer.py:148-178 | every suffix gets exactly one preview: .java/.ts/.js/.py/.sh give code in java/typescript/javascript/python/bash, .md markdown, .csv table, .jpg/.png/.webp image, .mp3/.wav audio, .mp4/.avi video, anything else metadata |
| `FileViewer.NoneListedIff` | file_viewer.py:140-144 | no candidate is left iff every entry has an ignored name |
| `FileViewer.LatestIsNewestListed` | file_viewer.py:140-147 | the chosen entry is in the folder, is not ignored, and is at least as new as every listed entry |
| `FileViewer.DisplayLatestFile` | file_viewer.py:135-180 | a missing folder gives an error; "no valid files" appears iff every entry is ignored; otherwise the first newest listed entry is shown with the preview its suffix selects |
| `FileViewer.SessionState.constructor` | file_viewer.py:83-91 | the session starts with an empty queue and event list, no observer, monitoring off |
| `FileViewer.SessionState.CheckEventsAndUpdate` | file_viewer.py:183-192 | afterwards the queue is empty and the event list is its old value followed by the old queue, in FIFO order; the result is true iff the queue was non-empty |
| `FileViewer.SessionState.OnMonitoringButton` | file_viewer.py:216-228 | Start installs the fresh observer and sets monitoring; Stop stops and clears the observer if one is set, and always clears monitoring; "monitoring iff an observer is set" is preserved |
| `FileViewer.SessionState.Rerun` | file_viewer.py:196-228 | the drain runs first and only when monitoring; an empty or missing folder stops the run before the button; otherwise the button acts as above |
| `FileViewer.PushesThenDrain` | file_viewer.py:183-192 | "created a.md" then "modified a.md", then a drain: the event list holds both wrappers in arrival order |
| `FileViewer0.FileEventHandler.constructor` | file_viewer_0.py:20-22 | the handler holds the queue it was given |
| `FileViewer0.Admits` | file_viewer_0.py:25 | definition of this page's admission test; its meaning is fixed by `FileViewer0.FileEventHandler.OnAnyEvent` |
| `FileViewer0.FileEventHandler.OnAnyEvent` | file_viewer_0.py:24-27 | the raw event itself is queued iff it is not a directory; no path is filtered |
| `FileViewer0.NewestFirstIff` | file_viewer_0.py:52 | "each entry at least as new as the next" is the same as "no entry newer than an earlier one" |
| `FileViewer0.InsertPermutes` | file_viewer_0.py:52 | one insertion step adds the entry and loses nothing |
| `FileViewer0.InsertKeepsOrder` | file_viewer_0.py:52 | one insertion step keeps a newest-first sequence newest first |
| `FileViewer0.SortByMtimeDesc` | file_viewer_0.py:52 | `sorted(..., key=getmtime, reverse=True)` is newest first and a permutation of the folder |
| `FileViewer0.InsertWithMtime` | file_viewer_0.py:52 | an inserted entry goes in front of every entry with the same mtime |
| `FileViewer0.SortStable` | file_viewer_0.py:52 | the sort is stable: for each mtime, the entries with that time keep their folder order |
| `FileViewer0.RegularFiles` | file_viewer_0.py:55 | an entry is shown iff `is_file()` holds for it |
| `FileViewer0.RegularFilesAppend` | file_viewer_0.py:53-57 | the `is_file` filter keeps the order |
| `FileViewer0.FirstRegularFileNoNewer` | file_viewer_0.py:52-55 | in a newest-first sequence, the first regular file is no newer than the head |
| `FileViewer0.RegularFilesInsert` | file_viewer_0.py:52-55 | on a newest-first sequence, the `is_file` filter commutes with one insertion step |
| `FileViewer0.InsertBehindNewer` | file_viewer_0.py:52-55 | the step of that commutation where the head is newer than the inserted entry |
| `FileViewer0.RegularFilesOfSorted` | file_viewer_0.py:52-55 | sorting the folder and then keeping the regular files is the same as sorting the regular files |
| `FileViewer0.ListingLine` | file_viewer_0.py:57 | definition of one listing line; its meaning is fixed by `FileViewer0.RegularFileLines` and `FileViewer0.DisplayFileListing` |
| `FileViewer0.RegularFileLines` | file_viewer_0.py:53-57 | the loop emits one line per regular file, in the given order |
| `FileViewer0.DisplayFileListing` | file_viewer_0.py:47-59 | a missing folder gives the error; otherwise one line per regular file, the regular files sorted newest first |
| `FileViewer0.EventLine` | file_viewer_0.py:66 | definition of one event line; its meaning is fixed by `FileViewer0.DisplayNewEvents` |
| `FileViewer0.DisplayNewEvents` | file_viewer_0.py:61-66 | one line per event of the list, in list order, none filtered |
| `FileViewer0.DefaultPath` | file_viewer_0.py:88-89 | the folder path is never empty; a non-empty input is kept as it is, and the empty input becomes "~/Downloads" without expansion |
| `FileViewer0.SessionState.constructor` | file_viewer_0.py:69-75 | the session starts with an empty queue and event list, no observer, and no `monitoring` key |
| `FileViewer0.SessionState.CheckEventsAndUpdate` | file_viewer_0.py:122-130 | afterwards the queue is empty and the event list is its old value followed by the old queue in FIFO order; an empty queue leaves the list unchanged |
| `FileViewer0.SessionState.IsMonitoring` | file_viewer_0.py:100 | definition of "the key is present and true"; its meaning is fixed by `FileViewer0.SessionState.OnMonitoringButton` and `FileViewer0.SessionState.Rerun` |
| `FileViewer0.SessionState.OnMonitoringButton` | file_viewer_0.py:99-113 | a missing `monitoring` key counts as not monitoring; Start and Stop act as on the enhanced page, and a click always sets the key |
| `FileViewer0.SessionState.Rerun` | file_viewer_0.py:82-140 | a run stops iff the defaulted folder does not exist; otherwise the button acts first, and the drain runs iff monitoring is then present and true; otherwise the queue and list are untouched |

## Left out

- Rendering is not modelled: `st.*`, `AgGrid`, `GridOptionsBuilder`, `st_autorefresh`, the refresh slider and pandas DataFrames. They are presentation calls into libraries. The model stops at the rows, lines and views those calls would receive.
- The observer thread is not modelled: `start_observer` and `stop_observer` (`schedule`, `start`, `stop`, `join`). A started observer is an opaque token passed to the button, and the button returns the observer it stops.
- The thread safety of `queue.Queue` and events that arrive while a drain runs are not modelled. The model is single-threaded.
- EventQueue.Queue.Get: it requires a non-empty queue. On an empty queue Python's `get()` blocks, and both drains call it only after `empty()` returned False.
- Filesystem access is not modelled: `Path.iterdir`, `stat`, `os.path.getmtime`, `os.path.exists`, `os.path.expanduser`, `read_text` and `pd.read_csv`. Directory entries are inputs, and existence and `~` expansion are function parameters.
- Filesystem exceptions are not modelled. The parameter `folderExists` (and `pathExists` in `Rerun`) stands for "the path names an existing, listable directory". `os.path.exists` is also true for a regular file, and then `Path.iterdir` raises `NotADirectoryError` (file_viewer.py:100 and 140, file_viewer_0.py:52); the model returns a listing there, where the page crashes. Likewise `read_text` raises when the newest listed entry with a code or `.md` suffix is a directory or not text (file_viewer.py:149-159); the model selects that preview regardless.
- `Path.suffix` is an input field of each entry, not computed from the name.
- FileViewer.PreviewFor: it selects only the kind of preview. The file's content is not modelled, and neither is a CSV read error, which the source shows as an error message. The metadata preview does not carry its name, size and mtime.
- Clocks are not modelled: `datetime.now`, `strftime` and `strptime`. Times are whole seconds and `now` is a parameter. The source compares a second-resolution timestamp with a cutoff that keeps sub-second precision. With whole seconds, an event in the same second as the cutoff counts as recent.
- Mtimes are floats in the source. Here they are whole seconds.
- YAML config loading (`load_config`) and logging are not modelled. They are I/O with no effect on the pipeline. The starting folder and refresh rate that `load_config` supplies appear only as UI defaults.
- The event list grows without bound, as in the source. No cap is modelled.
