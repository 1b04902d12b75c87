/**
 * The event pipeline of the enhanced viewer page (file_viewer.py): the
 * watchdog handler that admits notifications into the queue as
 * `FileEventWrapper`s, the drain of that queue into the session's event list,
 * the five-minute window of recent events, the directory listing, the choice
 * of the latest file and of its preview, and the Start/Stop button.
 * Clocks are abstracted to whole seconds and passed in as `now`.
 */
module FileViewer {
  import opened Wrappers
  import opened Platform
  import opened EventQueue
  import opened MonitorButton

  // ---------------------------------------------------------------------------
  // Events and their dictionary form
  // ---------------------------------------------------------------------------

  /** An admitted event: kind and path copied from the notification, and the
      time (in seconds) at which it was admitted. */
  datatype FileEventWrapper = FileEventWrapper(eventType: string, srcPath: string, timestamp: int)

  /** `FileEventWrapper(event)`, stamped with the current time. */
  function Wrap(event: RawEvent, now: int): (w: FileEventWrapper)
    ensures w.eventType == event.eventType
    ensures w.srcPath == event.srcPath
    ensures w.timestamp == now
  {
    FileEventWrapper(event.eventType, event.srcPath, now)
  }

  /** A value of the dictionary `to_dict` builds. */
  datatype Field = Text(text: string) | Time(seconds: int)

  /** `to_dict`: exactly the three keys, each mapped to the wrapper's field. */
  function ToDict(w: FileEventWrapper): (d: map<string, Field>)
    ensures d.Keys == {"event_type", "src_path", "timestamp"}
    ensures d["event_type"] == Text(w.eventType)
    ensures d["src_path"] == Text(w.srcPath)
    ensures d["timestamp"] == Time(w.timestamp)
  {
    map["event_type" := Text(w.eventType), "src_path" := Text(w.srcPath), "timestamp" := Time(w.timestamp)]
  }

  /** No two different wrappers have the same dictionary. */
  lemma ToDictInjective(a: FileEventWrapper, b: FileEventWrapper)
    requires ToDict(a) == ToDict(b)
    ensures a == b
  {
    assert ToDict(a)["event_type"] == ToDict(b)["event_type"];
    assert ToDict(a)["src_path"] == ToDict(b)["src_path"];
    assert ToDict(a)["timestamp"] == ToDict(b)["timestamp"];
  }

  // ---------------------------------------------------------------------------
  // Substrings and the admission filter
  // ---------------------------------------------------------------------------

  /** Python's `sub in s` on strings. */
  predicate Contains(s: string, sub: string)
    decreases |s|
  {
    |sub| <= |s| && (s[..|sub|] == sub || (|s| > 0 && Contains(s[1..], sub)))
  }

  /** `sub` occurs in `s` starting at position `i`. */
  ghost predicate OccursAt(s: string, sub: string, i: int)
  {
    0 <= i && i + |sub| <= |s| && s[i..i + |sub|] == sub
  }

  /** `Contains` holds exactly when the substring occurs at some position. */
  lemma {:induction false} ContainsIff(s: string, sub: string)
    ensures Contains(s, sub) <==> exists i :: OccursAt(s, sub, i)
    decreases |s|
  {
    if |sub| > |s| {
    } else if s[..|sub|] == sub {
      assert OccursAt(s, sub, 0);
    } else {
      assert |s| > 0;
      ContainsIff(s[1..], sub);
      if Contains(s, sub) {
        var i :| OccursAt(s[1..], sub, i);
        assert s[1..][i..i + |sub|] == s[i + 1..i + 1 + |sub|];
        assert OccursAt(s, sub, i + 1);
      }
      if i :| OccursAt(s, sub, i) {
        assert i != 0;
        assert s[1..][i - 1..i - 1 + |sub|] == s[i..i + |sub|];
        assert OccursAt(s[1..], sub, i - 1);
      }
    }
  }

  /** The two macOS bookkeeping names the page ignores. */
  const IgnoredNames: seq<string> := [".DS_Store", ".localized"]

  /** The test in `on_any_event`: not a directory, and the path contains no
      ignored name anywhere (a substring test). */
  predicate Admits(event: RawEvent)
  {
    !event.isDirectory && !exists ignored | ignored in IgnoredNames :: Contains(event.srcPath, ignored)
  }

  /** Admission spelled out: not a directory, and neither ".DS_Store" nor
      ".localized" occurs at any position of the path. */
  lemma AdmitsIff(event: RawEvent)
    ensures Admits(event) <==>
              && !event.isDirectory
              && (forall i :: !OccursAt(event.srcPath, ".DS_Store", i))
              && (forall i :: !OccursAt(event.srcPath, ".localized", i))
  {
    ContainsIff(event.srcPath, ".DS_Store");
    ContainsIff(event.srcPath, ".localized");
  }

  /** The listing filter: the name is not EXACTLY one of the ignored names. */
  predicate Listed(name: string)
  {
    name !in IgnoredNames
  }

  /** Whatever the listing hides never gets into the event queue either: the
      path of a file with an ignored name contains that name. */
  lemma IgnoredNameNeverAdmitted(dir: string, name: string, event: RawEvent)
    requires !Listed(name)
    requires event.srcPath == dir + "/" + name
    ensures !Admits(event)
  {
    var i := |dir| + 1;
    assert event.srcPath[i..i + |name|] == name;
    assert OccursAt(event.srcPath, name, i);
    ContainsIff(event.srcPath, name);
  }

  /** The converse fails: a name that merely contains ".DS_Store" is listed,
      yet its events are dropped. */
  lemma AdmissionStricterThanListing()
    ensures Listed(".DS_Store.bak")
    ensures !Admits(RawEvent("modified", "/d/.DS_Store.bak", false))
  {
    var path := "/d/.DS_Store.bak";
    assert path[3..3 + |".DS_Store"|] == ".DS_Store";
    assert OccursAt(path, ".DS_Store", 3);
    ContainsIff(path, ".DS_Store");
  }

  /** `FileEventHandler`: the watchdog callback, holding the session's queue. */
  class FileEventHandler {
    const eventQueue: Queue<FileEventWrapper>

    constructor (eventQueue: Queue<FileEventWrapper>)
      ensures this.eventQueue == eventQueue
    {
      this.eventQueue := eventQueue;
    }

    /** `on_any_event`: exactly one wrapper is queued when the event is
        admitted, and the queue is unchanged otherwise. */
    method OnAnyEvent(event: RawEvent, now: int)
      modifies eventQueue
      ensures eventQueue.items == if Admits(event) then old(eventQueue.items) + [Wrap(event, now)]
                                  else old(eventQueue.items)
    {
      if Admits(event) {
        var wrapped := Wrap(event, now);
        eventQueue.Put(wrapped);
      }
    }
  }

  // ---------------------------------------------------------------------------
  // Recent events
  // ---------------------------------------------------------------------------

  /** The length of the recent-events window: five minutes, in seconds. */
  const RecentWindow: int := 5 * 60

  /** The event's timestamp is no earlier than `now` minus five minutes. */
  predicate IsRecent(w: FileEventWrapper, now: int)
  {
    w.timestamp >= now - RecentWindow
  }

  /** The comprehension in `display_recent_events`: the dictionaries of the
      recent events, in list order. */
  function RecentEvents(events: seq<FileEventWrapper>, now: int): (r: seq<map<string, Field>>)
    ensures |r| <= |events|
    decreases |events|
  {
    if events == [] then []
    else (if IsRecent(events[0], now) then [ToDict(events[0])] else []) + RecentEvents(events[1..], now)
  }

  /** The window is order-preserving: it splits along a concatenation. */
  lemma {:induction false} RecentEventsAppend(a: seq<FileEventWrapper>, b: seq<FileEventWrapper>, now: int)
    ensures RecentEvents(a + b, now) == RecentEvents(a, now) + RecentEvents(b, now)
    decreases |a|
  {
    if a == [] {
      assert a + b == b;
    } else {
      var ab := a + b;
      assert ab[0] == a[0] && ab[1..] == a[1..] + b;
      RecentEventsAppend(a[1..], b, now);
      var head := if IsRecent(a[0], now) then [ToDict(a[0])] else [];
      assert RecentEvents(ab, now) == head + RecentEvents(a[1..] + b, now);
      assert RecentEvents(a, now) == head + RecentEvents(a[1..], now);
    }
  }

  /** An event shows up in the window exactly when it is in the list and recent. */
  lemma {:induction false} RecentEventsMember(events: seq<FileEventWrapper>, now: int, w: FileEventWrapper)
    ensures ToDict(w) in RecentEvents(events, now) <==> w in events && IsRecent(w, now)
    decreases |events|
  {
    if events != [] {
      RecentEventsMember(events[1..], now, w);
      if ToDict(w) == ToDict(events[0]) {
        ToDictInjective(w, events[0]);
      }
      assert w in events <==> w == events[0] || w in events[1..];
    }
  }

  /** The window is empty exactly when no event of the list is recent. */
  lemma {:induction false} RecentEventsNoneIff(events: seq<FileEventWrapper>, now: int)
    ensures RecentEvents(events, now) == [] <==> forall i :: 0 <= i < |events| ==> !IsRecent(events[i], now)
    decreases |events|
  {
    if events != [] {
      RecentEventsNoneIff(events[1..], now);
      assert forall i :: 1 <= i < |events| ==> events[i] == events[1..][i - 1];
    }
  }

  /** When every event is recent, nothing is dropped and the order is kept. */
  lemma {:induction false} RecentEventsAllKept(events: seq<FileEventWrapper>, now: int)
    requires forall i :: 0 <= i < |events| ==> IsRecent(events[i], now)
    ensures |RecentEvents(events, now)| == |events|
    ensures forall i :: 0 <= i < |events| ==> RecentEvents(events, now)[i] == ToDict(events[i])
    decreases |events|
  {
    if events != [] {
      RecentEventsAllKept(events[1..], now);
    }
  }

  /** What the "New Events" area shows. */
  datatype RecentView = NoHistory | NoneRecent | RecentTable(rows: seq<map<string, Field>>)

  /** `display_recent_events`: nothing when the list is empty, the "no events
      in the last 5 minutes" notice when none is recent, the table otherwise. */
  function DisplayRecentEvents(eventList: seq<FileEventWrapper>, now: int): (v: RecentView)
    ensures v == NoHistory <==> eventList == []
    ensures v == NoneRecent <==> eventList != [] && forall i :: 0 <= i < |eventList| ==> !IsRecent(eventList[i], now)
    ensures v.RecentTable? ==> v.rows != [] && v.rows == RecentEvents(eventList, now)
  {
    if eventList == [] then NoHistory
    else
      var rows := RecentEvents(eventList, now);
      RecentEventsNoneIff(eventList, now);
      if rows == [] then NoneRecent else RecentTable(rows)
  }

  // ---------------------------------------------------------------------------
  // Directory listing and latest file
  // ---------------------------------------------------------------------------

  /** The entries whose name is not an ignored name, in listing order. */
  function ListedEntries(entries: seq<FileEntry>): (r: seq<FileEntry>)
    ensures |r| <= |entries|
    ensures forall f :: f in r <==> f in entries && Listed(f.name)
    decreases |entries|
  {
    if entries == [] then []
    else (if Listed(entries[0].name) then [entries[0]] else []) + ListedEntries(entries[1..])
  }

  /** The filter keeps the listing order: it splits along a concatenation. */
  lemma {:induction false} ListedEntriesAppend(a: seq<FileEntry>, b: seq<FileEntry>)
    ensures ListedEntries(a + b) == ListedEntries(a) + ListedEntries(b)
    decreases |a|
  {
    if a == [] {
      assert a + b == b;
    } else {
      var ab := a + b;
      assert ab[0] == a[0] && ab[1..] == a[1..] + b;
      ListedEntriesAppend(a[1..], b);
      var head := if Listed(a[0].name) then [a[0]] else [];
      assert ListedEntries(ab) == head + ListedEntries(a[1..] + b);
      assert ListedEntries(a) == head + ListedEntries(a[1..]);
    }
  }

  /** A row of the directory grid. */
  datatype Row = Row(fileName: string, fileType: string, modifiedTime: int, size: nat, path: string)

  function ToRow(f: FileEntry): Row
  {
    Row(f.name, if f.isDir then "Folder" else "File", f.mtime, f.size, f.path)
  }

  /** The loop of `display_file_listing_as_tree`: one row per listed entry,
      in listing order, folders marked "Folder" and everything else "File". */
  method TreeRows(entries: seq<FileEntry>) returns (rows: seq<Row>)
    ensures |rows| == |ListedEntries(entries)|
    ensures forall i :: 0 <= i < |rows| ==> rows[i] == ToRow(ListedEntries(entries)[i])
    ensures forall i :: 0 <= i < |rows| ==> Listed(rows[i].fileName)
  {
    rows := [];
    for n := 0 to |entries|
      invariant |rows| == |ListedEntries(entries[..n])|
      invariant forall i :: 0 <= i < |rows| ==> rows[i] == ToRow(ListedEntries(entries[..n])[i])
    {
      assert entries[..n + 1] == entries[..n] + [entries[n]];
      ListedEntriesAppend(entries[..n], [entries[n]]);
      if Listed(entries[n].name) {
        rows := rows + [ToRow(entries[n])];
      }
    }
    assert entries[..|entries|] == entries;
    forall i | 0 <= i < |rows| ensures Listed(rows[i].fileName) {
      assert ListedEntries(entries)[i] in ListedEntries(entries);
    }
  }

  /** The tree view: an error when the folder does not exist, the rows otherwise. */
  method DisplayFileListingAsTree(folderExists: bool, entries: seq<FileEntry>) returns (shown: Option<seq<Row>>)
    ensures shown == None <==> !folderExists
    ensures shown.Some? ==> |shown.value| == |ListedEntries(entries)|
    ensures shown.Some? ==> forall i :: 0 <= i < |shown.value| ==> shown.value[i] == ToRow(ListedEntries(entries)[i])
  {
    if folderExists {
      var rows := TreeRows(entries);
      shown := Some(rows);
    } else {
      shown := None;
    }
  }

  /** `max(files, key=mtime)`: the index of the newest file, the first one
      when several share the newest time. */
  function LatestIndex(files: seq<FileEntry>): (k: nat)
    requires files != []
    ensures k < |files|
    ensures forall j :: 0 <= j < |files| ==> files[j].mtime <= files[k].mtime
    ensures forall j :: 0 <= j < k ==> files[j].mtime < files[k].mtime
    decreases |files|
  {
    if |files| == 1 then 0
    else
      var k := LatestIndex(files[..|files| - 1]);
      if files[|files| - 1].mtime > files[k].mtime then |files| - 1 else k
  }

  /** How the latest file is previewed. */
  datatype Preview = Code(language: string) | Markdown | Table | Image | Audio | Video | Metadata

  const CodeSuffixes: set<string> := {".java", ".ts", ".js", ".py", ".sh"}
  const ImageSuffixes: set<string> := {".jpg", ".png", ".webp"}
  const AudioSuffixes: set<string> := {".mp3", ".wav"}
  const VideoSuffixes: set<string> := {".mp4", ".avi"}

  /** The if/elif chain on the suffix. Every suffix gets exactly one preview,
      and each preview is reached by exactly its own suffixes. */
  function PreviewFor(suffix: string): (p: Preview)
    ensures p.Code? <==> suffix in CodeSuffixes
    ensures p == Code("java") <==> suffix == ".java"
    ensures p == Code("typescript") <==> suffix == ".ts"
    ensures p == Code("javascript") <==> suffix == ".js"
    ensures p == Code("python") <==> suffix == ".py"
    ensures p == Code("bash") <==> suffix == ".sh"
    ensures p == Markdown <==> suffix == ".md"
    ensures p == Table <==> suffix == ".csv"
    ensures p == Image <==> suffix in ImageSuffixes
    ensures p == Audio <==> suffix in AudioSuffixes
    ensures p == Video <==> suffix in VideoSuffixes
    ensures p == Metadata <==>
              suffix !in CodeSuffixes + ImageSuffixes + AudioSuffixes + VideoSuffixes + {".md", ".csv"}
  {
    if suffix in [".java"] then Code("java")
    else if suffix in [".ts"] then Code("typescript")
    else if suffix in [".js"] then Code("javascript")
    else if suffix in [".py"] then Code("python")
    else if suffix in [".sh"] then Code("bash")
    else if suffix in [".md"] then Markdown
    else if suffix in [".csv"] then Table
    else if suffix in [".jpg", ".png", ".webp"] then Image
    else if suffix in [".mp3", ".wav"] then Audio
    else if suffix in [".mp4", ".avi"] then Video
    else Metadata
  }

  /** What the "Latest File" area shows. */
  datatype LatestView = FolderMissing | NoValidFiles | Latest(file: FileEntry, preview: Preview)

  /** Every entry is hidden exactly when no entry is left to choose from. */
  lemma NoneListedIff(entries: seq<FileEntry>)
    ensures ListedEntries(entries) == [] <==> forall f :: f in entries ==> !Listed(f.name)
  {
    if ListedEntries(entries) != [] {
      assert ListedEntries(entries)[0] in ListedEntries(entries);
    }
  }

  /** The entry `max` picks among the listed entries is the newest listed
      entry of the folder. */
  lemma LatestIsNewestListed(entries: seq<FileEntry>)
    requires ListedEntries(entries) != []
    ensures var valid := ListedEntries(entries);
            var latest := valid[LatestIndex(valid)];
            latest in entries && Listed(latest.name) &&
            forall f :: f in entries && Listed(f.name) ==> f.mtime <= latest.mtime
  {
    var valid := ListedEntries(entries);
    var k := LatestIndex(valid);
    assert valid[k] in valid;
    forall f | f in entries && Listed(f.name) ensures f.mtime <= valid[k].mtime {
      var j :| 0 <= j < |valid| && valid[j] == f;
    }
  }

  /** `display_latest_file`: an error for a missing folder, a warning when
      every entry is ignored, and otherwise the first newest listed entry with
      the preview its suffix selects. */
  function DisplayLatestFile(folderExists: bool, entries: seq<FileEntry>): (v: LatestView)
    ensures v == FolderMissing <==> !folderExists
    ensures v == NoValidFiles <==> folderExists && forall f :: f in entries ==> !Listed(f.name)
    ensures v.Latest? ==>
              && v.file in entries && Listed(v.file.name)
              && (forall f :: f in entries && Listed(f.name) ==> f.mtime <= v.file.mtime)
              && v.preview == PreviewFor(v.file.suffix)
    ensures v.Latest? ==>
              var valid := ListedEntries(entries);
              exists k :: 0 <= k < |valid| && valid[k] == v.file && forall j :: 0 <= j < k ==> valid[j].mtime < v.file.mtime
  {
    if !folderExists then FolderMissing
    else
      var valid := ListedEntries(entries);
      NoneListedIff(entries);
      if valid == [] then NoValidFiles
      else
        var k := LatestIndex(valid);
        LatestIsNewestListed(entries);
        Latest(valid[k], PreviewFor(valid[k].suffix))
  }

  // ---------------------------------------------------------------------------
  // Session state: the drain and the Start/Stop button
  // ---------------------------------------------------------------------------

  /** `st.session_state` of the page. */
  class SessionState {
    const eventQueue: Queue<FileEventWrapper>
    var observer: Option<Observer>
    var eventList: seq<FileEventWrapper>
    var monitoring: bool

    /** Monitoring is on exactly when an observer is running. */
    ghost predicate Valid()
      reads this
    {
      monitoring <==> observer.Some?
    }

    /** The initialisation at the top of the script. */
    constructor ()
      ensures Valid()
      ensures fresh(eventQueue) && eventQueue.items == []
      ensures observer == None && eventList == [] && !monitoring
    {
      eventQueue := new Queue<FileEventWrapper>();
      observer := None;
      eventList := [];
      monitoring := false;
    }

    /** `check_events_and_update`: moves every pending event, oldest first, to
        the end of the event list, leaves the queue empty, and reports whether
        anything moved. */
    method CheckEventsAndUpdate() returns (processed: bool)
      modifies this`eventList, eventQueue
      ensures eventQueue.items == []
      ensures eventList == old(eventList) + old(eventQueue.items)
      ensures processed <==> old(eventQueue.items) != []
    {
      processed := false;
      ghost var k := 0;
      var isEmpty := eventQueue.Empty();
      while !isEmpty
        invariant 0 <= k <= |old(eventQueue.items)|
        invariant eventList == old(eventList) + old(eventQueue.items)[..k]
        invariant eventQueue.items == old(eventQueue.items)[k..]
        invariant isEmpty <==> eventQueue.items == []
        invariant processed <==> k > 0
        decreases |eventQueue.items|
      {
        var event := eventQueue.Get();
        eventList := eventList + [event];
        processed := true;
        k := k + 1;
        isEmpty := eventQueue.Empty();
      }
      assert old(eventQueue.items)[..k] == old(eventQueue.items);
    }

    /** The Start/Stop button handlers. */
    method OnMonitoringButton(clicked: bool, started: Observer) returns (stopped: Option<Observer>)
      modifies this`observer, this`monitoring
      ensures ButtonEffect(old(monitoring), old(observer), clicked, started, monitoring, observer, stopped)
      ensures old(Valid()) ==> Valid()
    {
      stopped := None;
      if !monitoring {
        if clicked {
          observer := Some(started);
          monitoring := true;
        }
      } else {
        if clicked {
          if observer.Some? {
            stopped := observer;
            observer := None;
          }
          monitoring := false;
        }
      }
    }

    /** One run of `main`: drain first if monitoring, then reject an empty or
        missing folder (the run stops there), then the button. */
    method Rerun(pathInput: string, expandUser: string -> string, pathExists: string -> bool,
                 clicked: bool, started: Observer)
      returns (valid: bool, processed: bool, stopped: Option<Observer>)
      modifies this`eventList, this`observer, this`monitoring, eventQueue
      ensures old(monitoring) ==> eventQueue.items == [] && eventList == old(eventList) + old(eventQueue.items)
      ensures !old(monitoring) ==> eventQueue.items == old(eventQueue.items) && eventList == old(eventList)
      ensures processed <==> old(monitoring) && old(eventQueue.items) != []
      ensures valid <==> expandUser(pathInput) != "" && pathExists(expandUser(pathInput))
      ensures valid ==> ButtonEffect(old(monitoring), old(observer), clicked, started, monitoring, observer, stopped)
      ensures !valid ==> monitoring == old(monitoring) && observer == old(observer) && stopped == None
      ensures old(Valid()) ==> Valid()
    {
      processed, stopped := false, None;
      if monitoring {
        processed := CheckEventsAndUpdate();
      }
      var folderPath := expandUser(pathInput);
      valid := folderPath != "" && pathExists(folderPath);
      if !valid {
        return;
      }
      stopped := OnMonitoringButton(clicked, started);
    }
  }

  /** The example run: two notifications about "a.md", then a drain, leave
      both in the event list in arrival order. */
  method PushesThenDrain(now: int) returns (eventList: seq<FileEventWrapper>)
    ensures eventList == [FileEventWrapper("created", "a.md", now), FileEventWrapper("modified", "a.md", now)]
  {
    var session := new SessionState();
    var handler := new FileEventHandler(session.eventQueue);
    handler.OnAnyEvent(RawEvent("created", "a.md", false), now);
    handler.OnAnyEvent(RawEvent("modified", "a.md", false), now);
    var processed := session.CheckEventsAndUpdate();
    eventList := session.eventList;
  }
}
