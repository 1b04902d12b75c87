/**
 * The first, plainer viewer page (file_viewer_0.py): the handler queues raw
 * watchdog events that are not about directories, a drain nested in `main`
 * moves them to the session's event list, the event list is shown one line
 * per event, and the folder listing shows the regular files, newest first.
 */
module FileViewer0 {
  import opened Wrappers
  import opened Platform
  import opened EventQueue
  import opened MonitorButton

  // ---------------------------------------------------------------------------
  // Admission
  // ---------------------------------------------------------------------------

  /** The only test of this page's `on_any_event`: the path is not a directory. */
  predicate Admits(event: RawEvent)
  {
    !event.isDirectory
  }

  /** `FileEventHandler`: the watchdog callback, holding the session's queue. */
  class FileEventHandler {
    const eventQueue: Queue<RawEvent>

    constructor (eventQueue: Queue<RawEvent>)
      ensures this.eventQueue == eventQueue
    {
      this.eventQueue := eventQueue;
    }

    /** `on_any_event`: the raw event itself is queued exactly when it is not
        about a directory; no path is filtered out. */
    method OnAnyEvent(event: RawEvent)
      modifies eventQueue
      ensures eventQueue.items == if Admits(event) then old(eventQueue.items) + [event]
                                  else old(eventQueue.items)
    {
      if !event.isDirectory {
        eventQueue.Put(event);
      }
    }
  }

  // ---------------------------------------------------------------------------
  // Ordering the folder by modification time
  // ---------------------------------------------------------------------------

  /** Newest first: each entry is at least as new as the one after it. */
  predicate NewestFirst(s: seq<FileEntry>)
    decreases |s|
  {
    |s| <= 1 || (s[0].mtime >= s[1].mtime && NewestFirst(s[1..]))
  }

  /** Newest first means no entry is newer than any entry before it. */
  lemma {:induction false} NewestFirstIff(s: seq<FileEntry>)
    ensures NewestFirst(s) <==> forall i, j :: 0 <= i < j < |s| ==> s[i].mtime >= s[j].mtime
    decreases |s|
  {
    if |s| > 1 {
      var tail := s[1..];
      NewestFirstIff(tail);
      if NewestFirst(s) {
        forall i, j | 0 <= i < j < |s| ensures s[i].mtime >= s[j].mtime {
          if i == 0 {
            if j > 1 {
              assert tail[0].mtime >= tail[j - 1].mtime;
            }
          } else {
            assert tail[i - 1].mtime >= tail[j - 1].mtime;
          }
        }
      }
      if forall i, j :: 0 <= i < j < |s| ==> s[i].mtime >= s[j].mtime {
        assert s[0].mtime >= s[1].mtime;
        forall i, j | 0 <= i < j < |tail| ensures tail[i].mtime >= tail[j].mtime {
          assert tail[i] == s[i + 1] && tail[j] == s[j + 1];
        }
      }
    }
  }

  /** Puts `x` in front of the first entry that is not strictly newer than it. */
  function Insert(x: FileEntry, s: seq<FileEntry>): seq<FileEntry>
    decreases |s|
  {
    if s == [] || s[0].mtime <= x.mtime then [x] + s
    else [s[0]] + Insert(x, s[1..])
  }

  /** Inserting adds `x` and loses nothing. */
  lemma {:induction false} InsertPermutes(x: FileEntry, s: seq<FileEntry>)
    ensures multiset(Insert(x, s)) == multiset(s) + multiset{x}
    decreases |s|
  {
    if s != [] && s[0].mtime > x.mtime {
      InsertPermutes(x, s[1..]);
      assert s == [s[0]] + s[1..];
    }
  }

  /** Inserting into a newest-first sequence keeps it newest first. */
  lemma {:induction false} InsertKeepsOrder(x: FileEntry, s: seq<FileEntry>)
    requires NewestFirst(s)
    ensures NewestFirst(Insert(x, s))
    decreases |s|
  {
    if s == [] || s[0].mtime <= x.mtime {
      var r := [x] + s;
      assert Insert(x, s) == r;
      assert r[1..] == s;
    } else {
      var tail := s[1..];
      InsertKeepsOrder(x, tail);
      var rest := Insert(x, tail);
      var r := [s[0]] + rest;
      assert Insert(x, s) == r;
      assert r[1..] == rest;
      assert rest[0] == x || rest[0] == tail[0];
    }
  }

  /** `sorted(entries, key=getmtime, reverse=True)`: newest first, a
      permutation of the input. */
  function SortByMtimeDesc(s: seq<FileEntry>): (r: seq<FileEntry>)
    ensures NewestFirst(r)
    ensures multiset(r) == multiset(s)
    decreases |s|
  {
    if s == [] then []
    else
      var sorted := SortByMtimeDesc(s[1..]);
      InsertKeepsOrder(s[0], sorted);
      InsertPermutes(s[0], sorted);
      assert multiset(s) == multiset(s[1..]) + multiset{s[0]} by {
        assert s == [s[0]] + s[1..];
      }
      Insert(s[0], sorted)
  }

  /** The entries with modification time `t`, in order. */
  function WithMtime(s: seq<FileEntry>, t: int): seq<FileEntry>
    decreases |s|
  {
    if s == [] then []
    else (if s[0].mtime == t then [s[0]] else []) + WithMtime(s[1..], t)
  }

  /** Inserting `x` puts it in front of every entry with the same time. */
  lemma {:induction false} InsertWithMtime(x: FileEntry, s: seq<FileEntry>, t: int)
    ensures WithMtime(Insert(x, s), t) == (if x.mtime == t then [x] else []) + WithMtime(s, t)
    decreases |s|
  {
    var same := if x.mtime == t then [x] else [];
    if s == [] || s[0].mtime <= x.mtime {
      var r := [x] + s;
      assert Insert(x, s) == r;
      assert r[0] == x && r[1..] == s;
      assert WithMtime(r, t) == same + WithMtime(s, t);
    } else {
      InsertWithMtime(x, s[1..], t);
      var rest := Insert(x, s[1..]);
      var r := [s[0]] + rest;
      assert Insert(x, s) == r;
      assert r[0] == s[0] && r[1..] == rest;
      var head := if s[0].mtime == t then [s[0]] else [];
      assert WithMtime(r, t) == head + WithMtime(rest, t);
      assert WithMtime(s, t) == head + WithMtime(s[1..], t);
      assert WithMtime(rest, t) == same + WithMtime(s[1..], t);
    }
  }

  /** The sort is stable, as Python's is: entries with equal modification
      times keep their relative order. */
  lemma {:induction false} SortStable(s: seq<FileEntry>, t: int)
    ensures WithMtime(SortByMtimeDesc(s), t) == WithMtime(s, t)
    decreases |s|
  {
    if s != [] {
      SortStable(s[1..], t);
      InsertWithMtime(s[0], SortByMtimeDesc(s[1..]), t);
    }
  }

  // ---------------------------------------------------------------------------
  // The folder listing
  // ---------------------------------------------------------------------------

  /** The entries for which `is_file()` holds, in order. */
  function RegularFiles(s: seq<FileEntry>): (r: seq<FileEntry>)
    ensures |r| <= |s|
    ensures forall f :: f in r <==> f in s && f.isFile
    decreases |s|
  {
    if s == [] then []
    else (if s[0].isFile then [s[0]] else []) + RegularFiles(s[1..])
  }

  /** The filter keeps the order: it splits along a concatenation. */
  lemma {:induction false} RegularFilesAppend(a: seq<FileEntry>, b: seq<FileEntry>)
    ensures RegularFiles(a + b) == RegularFiles(a) + RegularFiles(b)
    decreases |a|
  {
    if a == [] {
      assert a + b == b;
    } else {
      var ab := a + b;
      assert ab[0] == a[0] && ab[1..] == a[1..] + b;
      RegularFilesAppend(a[1..], b);
      var head := if a[0].isFile then [a[0]] else [];
      assert RegularFiles(ab) == head + RegularFiles(a[1..] + b);
      assert RegularFiles(a) == head + RegularFiles(a[1..]);
    }
  }

  /** The first regular file of a newest-first sequence is no newer than its head. */
  lemma FirstRegularFileNoNewer(s: seq<FileEntry>)
    requires s != [] && NewestFirst(s) && RegularFiles(s) != []
    ensures RegularFiles(s)[0].mtime <= s[0].mtime
  {
    var files := RegularFiles(s);
    assert files[0] in s;
    var k :| 0 <= k < |s| && s[k] == files[0];
    NewestFirstIff(s);
    if k > 0 {
      assert s[0].mtime >= s[k].mtime;
    }
  }

  /** On a newest-first sequence, keeping the regular files commutes with
      inserting one more entry. */
  lemma {:induction false} RegularFilesInsert(x: FileEntry, s: seq<FileEntry>)
    requires NewestFirst(s)
    ensures RegularFiles(Insert(x, s)) == if x.isFile then Insert(x, RegularFiles(s)) else RegularFiles(s)
    decreases |s|
  {
    var files := RegularFiles(s);
    if s == [] || s[0].mtime <= x.mtime {
      var r := [x] + s;
      assert Insert(x, s) == r;
      assert r[0] == x && r[1..] == s;
      assert RegularFiles(r) == (if x.isFile then [x] else []) + files;
      if x.isFile && files != [] {
        FirstRegularFileNoNewer(s);
      }
    } else {
      var tail := s[1..];
      RegularFilesInsert(x, tail);
      InsertBehindNewer(x, s);
    }
  }

  /** The step of `RegularFilesInsert` where the head of `s` is newer than `x`. */
  lemma InsertBehindNewer(x: FileEntry, s: seq<FileEntry>)
    requires s != [] && s[0].mtime > x.mtime
    requires RegularFiles(Insert(x, s[1..])) == if x.isFile then Insert(x, RegularFiles(s[1..])) else RegularFiles(s[1..])
    ensures RegularFiles(Insert(x, s)) == if x.isFile then Insert(x, RegularFiles(s)) else RegularFiles(s)
  {
    var head, tail := s[0], s[1..];
    var rest := Insert(x, tail);
    var r := [head] + rest;
    assert Insert(x, s) == r;
    assert r[0] == head && r[1..] == rest;
    var kept := if head.isFile then [head] else [];
    assert RegularFiles(r) == kept + RegularFiles(rest);
    assert RegularFiles(s) == kept + RegularFiles(tail);
    var files := RegularFiles(tail);
    if !head.isFile {
      assert kept + RegularFiles(rest) == RegularFiles(rest);
      assert RegularFiles(s) == files;
    } else if x.isFile {
      var f := [head] + files;
      assert f[0] == head && f[1..] == files;
      assert Insert(x, f) == [head] + Insert(x, files);
    }
  }

  /** Sorting everything and then keeping the regular files gives the regular
      files sorted newest first. */
  lemma {:induction false} RegularFilesOfSorted(s: seq<FileEntry>)
    ensures RegularFiles(SortByMtimeDesc(s)) == SortByMtimeDesc(RegularFiles(s))
    decreases |s|
  {
    if s != [] {
      var tail := s[1..];
      RegularFilesOfSorted(tail);
      var sorted := SortByMtimeDesc(tail);
      assert SortByMtimeDesc(s) == Insert(s[0], sorted);
      RegularFilesInsert(s[0], sorted);
      var files := RegularFiles(s);
      assert files == (if s[0].isFile then [s[0]] else []) + RegularFiles(tail);
      if s[0].isFile {
        assert files[0] == s[0] && files[1..] == RegularFiles(tail);
        assert SortByMtimeDesc(files) == Insert(s[0], SortByMtimeDesc(RegularFiles(tail)));
      } else {
        assert files == RegularFiles(tail);
      }
    }
  }

  /** The text line for one file. */
  function ListingLine(f: FileEntry): string
  {
    "\U{1F4C4} " + f.name
  }

  /** The loop of `display_file_listing`: one line per regular file, in the
      order given. */
  method RegularFileLines(files: seq<FileEntry>) returns (lines: seq<string>)
    ensures |lines| == |RegularFiles(files)|
    ensures forall i :: 0 <= i < |lines| ==> lines[i] == ListingLine(RegularFiles(files)[i])
  {
    lines := [];
    for n := 0 to |files|
      invariant |lines| == |RegularFiles(files[..n])|
      invariant forall i :: 0 <= i < |lines| ==> lines[i] == ListingLine(RegularFiles(files[..n])[i])
    {
      assert files[..n + 1] == files[..n] + [files[n]];
      RegularFilesAppend(files[..n], [files[n]]);
      if files[n].isFile {
        lines := lines + [ListingLine(files[n])];
      }
    }
    assert files[..|files|] == files;
  }

  /** `display_file_listing`: an error when the folder is missing; otherwise
      one line per regular file, the regular files sorted newest first (and,
      among equal times, in listing order). */
  method DisplayFileListing(folderExists: bool, entries: seq<FileEntry>) returns (shown: Option<seq<string>>)
    ensures shown == None <==> !folderExists
    ensures shown.Some? ==>
              var files := SortByMtimeDesc(RegularFiles(entries));
              |shown.value| == |files| && forall i :: 0 <= i < |files| ==> shown.value[i] == ListingLine(files[i])
  {
    if !folderExists {
      return None;
    }
    var files := SortByMtimeDesc(entries);
    var lines := RegularFileLines(files);
    RegularFilesOfSorted(entries);
    shown := Some(lines);
  }

  // ---------------------------------------------------------------------------
  // The event lines
  // ---------------------------------------------------------------------------

  /** The text line for one event. */
  function EventLine(e: RawEvent): string
  {
    "New event: " + e.eventType + " - " + e.srcPath
  }

  /** `display_new_events`: one line per event of the list, in list order,
      none left out. */
  method DisplayNewEvents(eventList: seq<RawEvent>) returns (lines: seq<string>)
    ensures |lines| == |eventList|
    ensures forall i :: 0 <= i < |eventList| ==> lines[i] == EventLine(eventList[i])
  {
    lines := [];
    for n := 0 to |eventList|
      invariant |lines| == n
      invariant forall i :: 0 <= i < n ==> lines[i] == EventLine(eventList[i])
    {
      lines := lines + [EventLine(eventList[n])];
    }
  }

  // ---------------------------------------------------------------------------
  // Session state and one run of the page
  // ---------------------------------------------------------------------------

  /** The folder to watch: an empty input falls back to "~/Downloads",
      literally, without expanding the `~`. */
  function DefaultPath(input: string): (path: string)
    ensures path != ""
    ensures input != "" ==> path == input
    ensures input == "" ==> path == "~/Downloads"
  {
    if input == "" then "~/Downloads" else input
  }

  /** `st.session_state` of the page. This page never initialises the
      `monitoring` key, so it starts out absent. */
  class SessionState {
    const eventQueue: Queue<RawEvent>
    var observer: Option<Observer>
    var eventList: seq<RawEvent>
    var monitoring: Option<bool>

    /** `'monitoring' in st.session_state and st.session_state.monitoring`. */
    predicate IsMonitoring()
      reads this
    {
      monitoring == Some(true)
    }

    /** Monitoring is on exactly when an observer is running. */
    ghost predicate Valid()
      reads this
    {
      IsMonitoring() <==> observer.Some?
    }

    /** The initialisation at the top of the script. */
    constructor ()
      ensures Valid()
      ensures fresh(eventQueue) && eventQueue.items == []
      ensures observer == None && eventList == [] && monitoring == None
    {
      eventQueue := new Queue<RawEvent>();
      observer := None;
      eventList := [];
      monitoring := None;
    }

    /** The nested `check_events_and_update`: moves every pending event,
        oldest first, to the end of the event list and leaves the queue empty. */
    method CheckEventsAndUpdate()
      modifies this`eventList, eventQueue
      ensures eventQueue.items == []
      ensures eventList == old(eventList) + old(eventQueue.items)
    {
      ghost var k := 0;
      var isEmpty := eventQueue.Empty();
      while !isEmpty
        invariant 0 <= k <= |old(eventQueue.items)|
        invariant eventList == old(eventList) + old(eventQueue.items)[..k]
        invariant eventQueue.items == old(eventQueue.items)[k..]
        invariant isEmpty <==> eventQueue.items == []
        decreases |eventQueue.items|
      {
        var event := eventQueue.Get();
        eventList := eventList + [event];
        k := k + 1;
        isEmpty := eventQueue.Empty();
      }
      assert old(eventQueue.items)[..k] == old(eventQueue.items);
    }

    /** The Start/Stop button handlers. A click always leaves the key set. */
    method OnMonitoringButton(clicked: bool, started: Observer) returns (stopped: Option<Observer>)
      modifies this`observer, this`monitoring
      ensures ButtonEffect(old(IsMonitoring()), old(observer), clicked, started, IsMonitoring(), observer, stopped)
      ensures clicked ==> monitoring.Some?
      ensures !clicked ==> monitoring == old(monitoring)
      ensures old(Valid()) ==> Valid()
    {
      stopped := None;
      if !IsMonitoring() {
        if clicked {
          observer := Some(started);
          monitoring := Some(true);
        }
      } else {
        if clicked {
          if observer.Some? {
            stopped := observer;
            observer := None;
          }
          monitoring := Some(false);
        }
      }
    }

    /** One run of `main`: default the folder, stop the run when it does not
        exist, then the button, then the drain if monitoring is now on. */
    method Rerun(pathInput: string, pathExists: string -> bool, clicked: bool, started: Observer)
      returns (valid: bool, stopped: Option<Observer>)
      modifies this`eventList, this`observer, this`monitoring, eventQueue
      ensures valid <==> pathExists(DefaultPath(pathInput))
      ensures !valid ==> && monitoring == old(monitoring) && observer == old(observer) && stopped == None
                         && eventList == old(eventList) && eventQueue.items == old(eventQueue.items)
      ensures valid ==> ButtonEffect(old(IsMonitoring()), old(observer), clicked, started, IsMonitoring(), observer, stopped)
      ensures valid && IsMonitoring() ==> eventQueue.items == [] && eventList == old(eventList) + old(eventQueue.items)
      ensures valid && !IsMonitoring() ==> eventQueue.items == old(eventQueue.items) && eventList == old(eventList)
      ensures old(Valid()) ==> Valid()
    {
      stopped := None;
      var folderPath := DefaultPath(pathInput);
      valid := pathExists(folderPath);
      if !valid {
        return;
      }
      stopped := OnMonitoringButton(clicked, started);
      if IsMonitoring() {
        CheckEventsAndUpdate();
      }
    }
  }
}
