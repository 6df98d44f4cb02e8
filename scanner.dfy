/**
 * The change-detection pass of the watcher (Watcher.checkForChanges), as pure
 * functions of the tracked map and of what the filesystem reports.
 *
 * The walk is an input: the entries filepath.Walk hands to the callback, in
 * visit order, where a Failed visit is a call with a non-nil error. The
 * callback returns that error and the walk stops there. The existence check
 * of the deletion pass (os.Stat) is a separate input, the set of paths that
 * still exist; it need not agree with the walk.
 */
module Scanner {
  import opened Wrappers
  import opened Events

  /** Modification times; only their order matters (time.Time.After is >). */
  type Time = int

  /** The last-seen modification time of every tracked non-directory entry. */
  type Tracked = map<string, Time>

  /**
   * One entry the walk reports, from its Lstat information: a directory or
   * anything else (a file, a symbolic link, a socket, a device). Everything
   * that is not a directory is tracked.
   */
  datatype Entry = Entry(path: string, isDir: bool, modTime: Time)
  datatype WalkError = WalkError(path: string, reason: string)
  datatype Visit = Found(entry: Entry) | Failed(error: WalkError)

  /** What one scan produces. Deletions are a set: Go visits a map in no fixed order. */
  datatype Outcome = Outcome(
    tracked: Tracked,
    changes: seq<Event>,
    removed: set<string>,
    error: Option<WalkError>)

  // ---------------------------------------------------------------------
  // The walk

  /** The entries the callback handles: those before the first failure. */
  function Processed(walk: seq<Visit>): seq<Entry> {
    if walk == [] || walk[0].Failed? then [] else [walk[0].entry] + Processed(walk[1..])
  }

  /** The error checkForChanges returns: the first failure of the walk, if any. */
  function FirstError(walk: seq<Visit>): Option<WalkError> {
    if walk == [] then None
    else if walk[0].Failed? then Some(walk[0].error)
    else FirstError(walk[1..])
  }

  /**
   * The processed entries are exactly the visits before the first failure,
   * and the returned error is that failure: there is one iff some visit failed.
   */
  lemma {:induction false} WalkStopsAtFirstFailure(walk: seq<Visit>)
    ensures var es := Processed(walk);
      && |es| <= |walk|
      && (forall i :: 0 <= i < |es| ==> walk[i] == Found(es[i]))
      && (|es| < |walk| ==> walk[|es|].Failed? && FirstError(walk) == Some(walk[|es|].error))
      && (|es| == |walk| ==> FirstError(walk) == None)
      && (FirstError(walk).Some? <==> exists i :: 0 <= i < |walk| && walk[i].Failed?)
  {
    if walk != [] && walk[0].Found? {
      WalkStopsAtFirstFailure(walk[1..]);
      assert forall i :: 1 <= i < |walk| ==> walk[i] == walk[1..][i - 1];
    }
  }

  /**
   * The walk, stopped before visit i with map m after emitting done: what is
   * left of it brings the map and the events to those of the whole walk.
   */
  ghost predicate WalkedUpTo(start: Tracked, walk: seq<Visit>, i: nat, m: Tracked, done: seq<Event>) {
    && i <= |walk|
    && FirstError(walk) == FirstError(walk[i..])
    && WalkMap(start, Processed(walk)) == WalkMap(m, Processed(walk[i..]))
    && WalkEvents(start, Processed(walk)) == done + WalkEvents(m, Processed(walk[i..]))
  }

  lemma WalkBegins(start: Tracked, walk: seq<Visit>)
    ensures WalkedUpTo(start, walk, 0, start, [])
  {
    assert walk[0..] == walk;
  }

  /** Handling the entry at visit i moves the walk on by one visit. */
  lemma WalkStep(start: Tracked, walk: seq<Visit>, i: nat, m: Tracked, done: seq<Event>)
    requires WalkedUpTo(start, walk, i, m, done)
    requires i < |walk| && walk[i].Found?
    ensures WalkedUpTo(start, walk, i + 1, Track(m, walk[i].entry), done + Observe(m, walk[i].entry))
  {
    var e := walk[i].entry;
    assert walk[i..][1..] == walk[i + 1..];
    assert Processed(walk[i..]) == [e] + Processed(walk[i + 1..]);
    assert WalkEvents(m, Processed(walk[i..])) == Observe(m, e) + WalkEvents(Track(m, e), Processed(walk[i + 1..]));
  }

  /** At the end of the entries or at a failure the walk is complete. */
  lemma WalkEnds(start: Tracked, walk: seq<Visit>, i: nat, m: Tracked, done: seq<Event>)
    requires WalkedUpTo(start, walk, i, m, done)
    requires i == |walk| || walk[i].Failed?
    ensures m == WalkMap(start, Processed(walk))
    ensures done == WalkEvents(start, Processed(walk))
    ensures FirstError(walk) == if i < |walk| then Some(walk[i].error) else None
  {
    assert Processed(walk[i..]) == [];
  }

  /** The events one entry produces against the current map. */
  function Observe(prev: Tracked, e: Entry): seq<Event> {
    if e.isDir then []
    else if e.path !in prev then [Created(e.path)]
    else if e.modTime > prev[e.path] then [Modified(e.path)]
    else []
  }

  /** The map after one entry: a non-directory entry's time is always overwritten. */
  function Track(prev: Tracked, e: Entry): Tracked {
    if e.isDir then prev else prev[e.path := e.modTime]
  }

  function WalkMap(prev: Tracked, es: seq<Entry>): Tracked
    decreases es
  {
    if es == [] then prev else WalkMap(Track(prev, es[0]), es[1..])
  }

  function WalkEvents(prev: Tracked, es: seq<Entry>): seq<Event>
    decreases es
  {
    if es == [] then [] else Observe(prev, es[0]) + WalkEvents(Track(prev, es[0]), es[1..])
  }

  // ---------------------------------------------------------------------
  // Independent descriptions of what the walk does

  function Paths(es: seq<Entry>): set<string> {
    set e | e in es :: e.path
  }

  function FilePaths(es: seq<Entry>): set<string> {
    set e | e in es && !e.isDir :: e.path
  }

  function DirPaths(es: seq<Entry>): set<string> {
    set e | e in es && e.isDir :: e.path
  }

  /** filepath.Walk visits every path once. */
  predicate DistinctPaths(es: seq<Entry>) {
    forall i, j :: 0 <= i < j < |es| ==> es[i].path != es[j].path
  }

  /** The non-directory entries of a walk, each with the time of its last visit. */
  function Files(es: seq<Entry>): Tracked
    decreases es
  {
    if es == [] then map[]
    else (if es[0].isDir then map[] else map[es[0].path := es[0].modTime]) + Files(es[1..])
  }

  /** The files map covers exactly the non-directory entries visited. */
  lemma {:induction false} FilesKeys(es: seq<Entry>)
    ensures Files(es).Keys == FilePaths(es)
    decreases es
  {
    if es != [] {
      FilesKeys(es[1..]);
      assert FilePaths(es) == (if es[0].isDir then {} else {es[0].path}) + FilePaths(es[1..]) by {
        assert forall e :: e in es <==> e == es[0] || e in es[1..];
      }
    }
  }

  /** Every entry judged against the map as it was before the walk. */
  function Changes(prev: Tracked, es: seq<Entry>): seq<Event> {
    if es == [] then [] else Observe(prev, es[0]) + Changes(prev, es[1..])
  }

  /** The events of a sequence that concern one path, in order. */
  function EventsFor(evs: seq<Event>, p: string): seq<Event> {
    if evs == [] then []
    else (if evs[0].path == p then [evs[0]] else []) + EventsFor(evs[1..], p)
  }

  /** EventsFor keeps exactly the events about p. */
  lemma {:induction false} EventsForMembers(evs: seq<Event>, p: string)
    ensures forall ev :: ev in EventsFor(evs, p) <==> ev in evs && ev.path == p
  {
    if evs != [] {
      EventsForMembers(evs[1..], p);
      assert forall ev :: ev in evs <==> ev == evs[0] || ev in evs[1..];
    }
  }

  /** The deletion pass: keep exactly the tracked paths that still exist. */
  function Prune(m: Tracked, present: set<string>): (r: Tracked)
    ensures r.Keys == m.Keys * present
    ensures forall p :: p in r ==> r[p] == m[p]
  {
    map p | p in m && p in present :: m[p]
  }

  /** One complete call of checkForChanges. */
  function Scan(prev: Tracked, walk: seq<Visit>, present: set<string>): Outcome {
    var walked := WalkMap(prev, Processed(walk));
    Outcome(Prune(walked, present), WalkEvents(prev, Processed(walk)), walked.Keys - present, FirstError(walk))
  }

  /** The Deleted events for an enumeration of removed paths. */
  function Deletions(ps: seq<string>): (evs: seq<Event>)
    ensures |evs| == |ps|
    ensures forall i :: 0 <= i < |ps| ==> evs[i] == Deleted(ps[i])
  {
    seq(|ps|, i requires 0 <= i < |ps| => Deleted(ps[i]))
  }

  /** ps lists every element of s exactly once. */
  ghost predicate Enumerates(ps: seq<string>, s: set<string>) {
    && (forall p :: p in ps <==> p in s)
    && (forall i, j :: 0 <= i < j < |ps| ==> ps[i] != ps[j])
  }

  /** Nothing to remove, nothing listed. */
  lemma EnumeratesNothing(ps: seq<string>)
    requires Enumerates(ps, {})
    ensures ps == []
  {
    if ps != [] {
      FirstIsMember(ps);
      assert false;
    }
  }

  lemma FirstIsMember(ps: seq<string>)
    requires ps != []
    ensures ps[0] in ps
  {
  }

  /**
   * The deletion pass's invariant: the keys still to be looked at, the map
   * so far and the paths removed so far, against the map the pass started from.
   */
  ghost predicate PrunedUpTo(start: Tracked, present: set<string>, keys: set<string>, m: Tracked, removed: seq<string>) {
    && keys <= start.Keys
    && (forall p :: p in removed <==> p in start && p !in keys && p !in present)
    && (forall i, j :: 0 <= i < j < |removed| ==> removed[i] != removed[j])
    && (forall p :: p in m <==> p in start && (p in keys || p in present))
    && (forall p :: p in m ==> m[p] == start[p])
  }

  lemma PruneBegins(start: Tracked, present: set<string>)
    ensures PrunedUpTo(start, present, start.Keys, start, [])
  {
  }

  /** Looking at one more key: it is dropped and reported exactly when it no longer exists. */
  lemma PruneStep(start: Tracked, present: set<string>, keys: set<string>, m: Tracked, removed: seq<string>,
                  p: string, m': Tracked, removed': seq<string>)
    requires PrunedUpTo(start, present, keys, m, removed) && p in keys
    requires m' == if p in present then m else m - {p}
    requires removed' == if p in present then removed else removed + [p]
    ensures PrunedUpTo(start, present, keys - {p}, m', removed')
  {
  }

  lemma PruneEnds(start: Tracked, present: set<string>, m: Tracked, removed: seq<string>)
    requires PrunedUpTo(start, present, {}, m, removed)
    ensures m == Prune(start, present) && Enumerates(removed, start.Keys - present)
  {
    assert m == Prune(start, present);
  }

  // ---------------------------------------------------------------------
  // Lemmas

  lemma MapUnionAssoc(a: Tracked, b: Tracked, c: Tracked)
    ensures (a + b) + c == a + (b + c)
  {
  }

  /**
   * After the walk, the map is the old map overridden by every non-directory entry
   * visited, each with its latest time; nothing else is added or changed.
   */
  lemma {:induction false} WalkMapOverrides(prev: Tracked, es: seq<Entry>)
    ensures WalkMap(prev, es) == prev + Files(es)
    decreases es
  {
    if es != [] {
      var single: Tracked := if es[0].isDir then map[] else map[es[0].path := es[0].modTime];
      calc {
        WalkMap(prev, es);
        WalkMap(Track(prev, es[0]), es[1..]);
        { WalkMapOverrides(Track(prev, es[0]), es[1..]); }
        Track(prev, es[0]) + Files(es[1..]);
        { assert Track(prev, es[0]) == prev + single; }
        (prev + single) + Files(es[1..]);
        { MapUnionAssoc(prev, single, Files(es[1..])); }
        prev + (single + Files(es[1..]));
      }
    }
  }

  /** With distinct paths, each non-directory entry's time in Files is its own time. */
  lemma {:induction false} FilesAt(es: seq<Entry>, i: nat)
    requires DistinctPaths(es)
    requires i < |es| && !es[i].isDir
    ensures es[i].path in Files(es) && Files(es)[es[i].path] == es[i].modTime
  {
    if i == 0 {
      FilesKeys(es[1..]);
      assert es[0].path !in FilePaths(es[1..]) by {
        forall e | e in es[1..] ensures e.path != es[0].path {
          var k :| 0 <= k < |es[1..]| && es[1..][k] == e;
          assert es[k + 1] == e;
        }
      }
    } else {
      FilesAt(es[1..], i - 1);
    }
  }

  /** An entry for another path is judged the same after an update to p. */
  lemma {:induction false} ChangesUnaffected(prev: Tracked, e0: Entry, es: seq<Entry>)
    requires e0.path !in Paths(es)
    ensures Changes(Track(prev, e0), es) == Changes(prev, es)
  {
    if es != [] {
      assert es[0] in es;
      assert Paths(es[1..]) <= Paths(es) by {
        forall e | e in es[1..] ensures e in es { }
      }
      ChangesUnaffected(prev, e0, es[1..]);
    }
  }

  /**
   * Since filepath.Walk visits each path once, the events of the walk are
   * those of every entry judged against the map of the previous scan.
   */
  lemma {:induction false} WalkEventsAgainstStart(prev: Tracked, es: seq<Entry>)
    requires DistinctPaths(es)
    ensures WalkEvents(prev, es) == Changes(prev, es)
    decreases es
  {
    if es != [] {
      assert DistinctPaths(es[1..]);
      assert es[0].path !in Paths(es[1..]) by {
        forall e | e in es[1..] ensures e.path != es[0].path {
          var k :| 0 <= k < |es[1..]| && es[1..][k] == e;
          assert es[k + 1] == e;
        }
      }
      WalkEventsAgainstStart(Track(prev, es[0]), es[1..]);
      ChangesUnaffected(prev, es[0], es[1..]);
    }
  }

  lemma {:induction false} EventsForAppend(a: seq<Event>, b: seq<Event>, p: string)
    ensures EventsFor(a + b, p) == EventsFor(a, p) + EventsFor(b, p)
  {
    if a != [] {
      var head := if a[0].path == p then [a[0]] else [];
      calc {
        EventsFor(a + b, p);
        { assert (a + b)[0] == a[0] && (a + b)[1..] == a[1..] + b; }
        head + EventsFor(a[1..] + b, p);
        { EventsForAppend(a[1..], b, p); }
        head + (EventsFor(a[1..], p) + EventsFor(b, p));
        (head + EventsFor(a[1..], p)) + EventsFor(b, p);
        EventsFor(a, p) + EventsFor(b, p);
      }
    } else {
      assert a + b == b;
    }
  }

  lemma {:induction false} EventsForNone(evs: seq<Event>, p: string)
    requires forall ev :: ev in evs ==> ev.path != p
    ensures EventsFor(evs, p) == []
  {
    if evs != [] {
      assert evs[0] in evs;
      assert forall ev :: ev in evs[1..] ==> ev in evs;
      EventsForNone(evs[1..], p);
    }
  }

  /** The events about path p come only from entries for p. */
  lemma {:induction false} ChangesFor(prev: Tracked, es: seq<Entry>, p: string)
    requires p !in Paths(es)
    ensures EventsFor(Changes(prev, es), p) == []
  {
    if es != [] {
      PathsTail(es);
      EventsForAppend(Observe(prev, es[0]), Changes(prev, es[1..]), p);
      EventsForObserve(prev, es[0], p);
      ChangesFor(prev, es[1..], p);
    }
  }

  /**
   * Exactly one event per changed file: the events of a walk about the path
   * of entry i are the ones that entry alone yields against the previous map
   * — one Created if the path was untracked, one Modified if its time is
   * strictly later, none otherwise (and none for a directory).
   */
  lemma {:induction false} EventsOfEntry(prev: Tracked, es: seq<Entry>, i: nat)
    requires DistinctPaths(es)
    requires i < |es|
    ensures EventsFor(WalkEvents(prev, es), es[i].path) == Observe(prev, es[i])
  {
    WalkEventsAgainstStart(prev, es);
    ChangesEntry(prev, es, i);
  }

  lemma {:induction false} ChangesEntry(prev: Tracked, es: seq<Entry>, i: nat)
    requires DistinctPaths(es)
    requires i < |es|
    ensures EventsFor(Changes(prev, es), es[i].path) == Observe(prev, es[i])
  {
    var p := es[i].path;
    var head, tail := Observe(prev, es[0]), Changes(prev, es[1..]);
    assert Changes(prev, es) == head + tail;
    HeadNotInTail(es);
    EventsForAppend(head, tail, p);
    EventsForObserve(prev, es[0], p);
    if i == 0 {
      ChangesFor(prev, es[1..], p);
      assert EventsFor(tail, p) == [];
      assert EventsFor(head, p) == head;
    } else {
      assert es[1..][i - 1] == es[i];
      assert es[0].path != p;
      ChangesEntry(prev, es[1..], i - 1);
      assert EventsFor(tail, p) == Observe(prev, es[i]);
      assert EventsFor(head, p) == [];
    }
  }

  /** The first entry of a walk and the rest. */
  lemma PathsTail(es: seq<Entry>)
    requires es != []
    ensures Paths(es) == {es[0].path} + Paths(es[1..])
  {
    assert forall e :: e in es <==> e == es[0] || e in es[1..];
  }

  /** In a walk with distinct paths, the first path does not come again. */
  lemma HeadNotInTail(es: seq<Entry>)
    requires DistinctPaths(es) && es != []
    ensures es[0].path !in Paths(es[1..]) && DistinctPaths(es[1..])
  {
    forall e | e in es[1..] ensures e.path != es[0].path {
      var k :| 0 <= k < |es[1..]| && es[1..][k] == e;
      assert es[k + 1] == e;
    }
  }

  /** One entry's events concern its own path only. */
  lemma EventsForObserve(prev: Tracked, e: Entry, p: string)
    ensures EventsFor(Observe(prev, e), p) == if e.path == p then Observe(prev, e) else []
  {
    var evs := Observe(prev, e);
    if evs != [] {
      assert evs[1..] == [];
    }
  }

  /** Directories never produce events and never touch the map. */
  function NonDirectories(es: seq<Entry>): (fs: seq<Entry>)
    ensures forall e :: e in fs <==> e in es && !e.isDir
  {
    if es == [] then []
    else (if es[0].isDir then [] else [es[0]]) + NonDirectories(es[1..])
  }

  lemma {:induction false} DirectoriesIgnored(prev: Tracked, es: seq<Entry>)
    ensures WalkMap(prev, es) == WalkMap(prev, NonDirectories(es))
    ensures WalkEvents(prev, es) == WalkEvents(prev, NonDirectories(es))
    decreases es
  {
    if es != [] {
      DirectoriesIgnored(Track(prev, es[0]), es[1..]);
      var fs := NonDirectories(es);
      if es[0].isDir {
        assert fs == NonDirectories(es[1..]);
      } else {
        assert fs == [es[0]] + NonDirectories(es[1..]);
        assert fs != [] && fs[0] == es[0] && fs[1..] == NonDirectories(es[1..]);
      }
    }
  }

  /** The walk only emits Created and Modified events, and only for non-directory entries it visited. */
  lemma {:induction false} WalkEventsAreFileChanges(prev: Tracked, es: seq<Entry>)
    ensures forall ev :: ev in WalkEvents(prev, es) ==> !ev.Deleted? && ev.path in FilePaths(es)
    decreases es
  {
    if es != [] {
      WalkEventsAreFileChanges(Track(prev, es[0]), es[1..]);
      assert FilePaths(es[1..]) <= FilePaths(es) by {
        forall e | e in es[1..] ensures e in es { }
      }
      assert !es[0].isDir ==> es[0].path in FilePaths(es);
    }
  }

  // ---------------------------------------------------------------------
  // Whole scans

  /**
   * A walk error at visit k: the entries before it are processed, the ones
   * after it are not, the error is returned, and the deletion pass still
   * removes every tracked path that no longer exists.
   */
  lemma StopsAtFailure(prev: Tracked, walk: seq<Visit>, k: nat, rest: seq<Visit>, present: set<string>)
    requires k < |walk| && walk[k].Failed?
    requires forall j :: 0 <= j < k ==> walk[j].Found?
    ensures |Processed(walk)| == k
    ensures Scan(prev, walk, present).error == Some(walk[k].error)
    ensures Scan(prev, walk[..k + 1] + rest, present) == Scan(prev, walk, present)
    ensures forall p :: p in prev && p !in present ==>
      p !in Scan(prev, walk, present).tracked && p in Scan(prev, walk, present).removed
  {
    var walk' := walk[..k + 1] + rest;
    assert walk'[k] == walk[k];
    WalkStopsAtFirstFailure(walk);
    WalkStopsAtFirstFailure(walk');
    assert |Processed(walk')| == k;
    assert Processed(walk') == Processed(walk);
    WalkMapOverrides(prev, Processed(walk));
  }

  /**
   * A file created and deleted between two scans, never visited, yields no
   * event at all and is not tracked afterwards.
   */
  lemma UnseenPathIsSilent(prev: Tracked, walk: seq<Visit>, present: set<string>, p: string)
    requires p !in prev
    requires p !in Paths(Processed(walk))
    ensures var o := Scan(prev, walk, present);
      EventsFor(o.changes, p) == [] && p !in o.removed && p !in o.tracked
  {
    var es := Processed(walk);
    var o := Scan(prev, walk, present);
    WalkMapOverrides(prev, es);
    FilesKeys(es);
    assert FilePaths(es) <= Paths(es);
    assert p !in WalkMap(prev, es);
    WalkEventsAreFileChanges(prev, es);
    EventsForNone(o.changes, p);
  }

  /** The walk saw every path that exists and nothing else, and did not fail. */
  predicate Agrees(walk: seq<Visit>, present: set<string>) {
    && (forall i :: 0 <= i < |walk| ==> walk[i].Found?)
    && present == Paths(Processed(walk))
  }

  /**
   * After a clean scan the map holds every non-directory entry on disk with its
   * current time. The only other paths it keeps are tracked ones that now
   * name a directory: os.Stat still finds them.
   */
  lemma CleanScanTracksDisk(prev: Tracked, walk: seq<Visit>, present: set<string>)
    requires Agrees(walk, present)
    requires DistinctPaths(Processed(walk))
    ensures var es := Processed(walk); var o := Scan(prev, walk, present);
      && o.error == None
      && o.tracked.Keys == FilePaths(es) + (prev.Keys * DirPaths(es))
      && (prev.Keys !! DirPaths(es) ==> o.tracked.Keys == FilePaths(es))
      && (forall i :: 0 <= i < |es| && !es[i].isDir ==> o.tracked[es[i].path] == es[i].modTime)
  {
    var es := Processed(walk);
    CleanScanKeys(prev, walk, present);
    forall i | 0 <= i < |es| && !es[i].isDir
      ensures Scan(prev, walk, present).tracked[es[i].path] == es[i].modTime
    {
      ScanTimeOfFile(prev, walk, present, i);
    }
  }

  lemma CleanScanKeys(prev: Tracked, walk: seq<Visit>, present: set<string>)
    requires Agrees(walk, present)
    ensures var es := Processed(walk); var o := Scan(prev, walk, present);
      && o.error == None
      && o.tracked.Keys == FilePaths(es) + (prev.Keys * DirPaths(es))
  {
    var es := Processed(walk);
    var walked := WalkMap(prev, es);
    WalkStopsAtFirstFailure(walk);
    WalkMapOverrides(prev, es);
    FilesKeys(es);
    PathsSplit(es);
    assert Scan(prev, walk, present).tracked == Prune(walked, present);
  }

  /** A visited non-directory entry that still exists is tracked at the time of the walk. */
  lemma ScanTimeOfFile(prev: Tracked, walk: seq<Visit>, present: set<string>, i: nat)
    requires DistinctPaths(Processed(walk))
    requires i < |Processed(walk)| && !Processed(walk)[i].isDir
    requires Processed(walk)[i].path in present
    ensures var e := Processed(walk)[i];
      e.path in Scan(prev, walk, present).tracked && Scan(prev, walk, present).tracked[e.path] == e.modTime
  {
    var es := Processed(walk);
    var p := es[i].path;
    var walked := WalkMap(prev, es);
    WalkMapOverrides(prev, es);
    FilesAt(es, i);
    assert p in walked && walked[p] == es[i].modTime;
    assert Scan(prev, walk, present).tracked == Prune(walked, present);
  }

  lemma PathsSplit(es: seq<Entry>)
    ensures Paths(es) == FilePaths(es) + DirPaths(es)
  {
    forall p | p in Paths(es) ensures p in FilePaths(es) + DirPaths(es) {
      var e :| e in es && e.path == p;
      assert e.isDir ==> p in DirPaths(es);
    }
  }

  /** No entry yields an event when every file is tracked at its current time. */
  lemma {:induction false} ChangesQuiet(m: Tracked, es: seq<Entry>)
    requires forall e :: e in es && !e.isDir ==> e.path in m && m[e.path] == e.modTime
    ensures Changes(m, es) == []
  {
    if es != [] {
      assert es[0] in es;
      ChangesQuiet(m, es[1..]);
    }
  }

  /** A map that already holds every visited file at its time is a fixed point of the walk. */
  lemma {:induction false} WalkKeepsCurrent(m: Tracked, es: seq<Entry>)
    requires forall e :: e in es && !e.isDir ==> e.path in m && m[e.path] == e.modTime
    ensures WalkMap(m, es) == m
    decreases es
  {
    if es != [] {
      assert es[0] in es;
      assert Track(m, es[0]) == m;
      WalkKeepsCurrent(m, es[1..]);
    }
  }

  /** After a clean scan, every tracked path exists and every visited file is tracked at its time. */
  lemma CleanScanIsCurrent(prev: Tracked, walk: seq<Visit>, present: set<string>)
    requires Agrees(walk, present)
    requires DistinctPaths(Processed(walk))
    ensures var m1 := Scan(prev, walk, present).tracked;
      && m1.Keys <= present
      && forall e :: e in Processed(walk) && !e.isDir ==> e.path in m1 && m1[e.path] == e.modTime
  {
    var es := Processed(walk);
    var m1 := Scan(prev, walk, present).tracked;
    CleanScanKeys(prev, walk, present);
    PathsSplit(es);
    forall e | e in es && !e.isDir ensures e.path in m1 && m1[e.path] == e.modTime {
      var i :| 0 <= i < |es| && es[i] == e;
      assert e.path in Paths(es);
      ScanTimeOfFile(prev, walk, present, i);
    }
  }

  /** Scanning an unchanged tree a second time emits nothing and changes nothing. */
  lemma RescanIsQuiet(prev: Tracked, walk: seq<Visit>, present: set<string>)
    requires Agrees(walk, present)
    requires DistinctPaths(Processed(walk))
    ensures var o1 := Scan(prev, walk, present); var o2 := Scan(o1.tracked, walk, present);
      o2.changes == [] && o2.removed == {} && o2.tracked == o1.tracked && o2.error == None
  {
    var es := Processed(walk);
    var m1 := Scan(prev, walk, present).tracked;
    CleanScanIsCurrent(prev, walk, present);
    ChangesQuiet(m1, es);
    WalkEventsAgainstStart(m1, es);
    WalkKeepsCurrent(m1, es);
    assert Prune(m1, present) == m1;
    WalkStopsAtFirstFailure(walk);
  }

  /**
   * Create, touch and delete one file in an otherwise empty watched
   * directory: the three scans report Created, Modified and Deleted, and the
   * file is no longer tracked at the end.
   */
  lemma CreateModifyDelete()
    ensures var root := Found(Entry("watched", true, 0));
      var x := Entry("watched/x.txt", false, 1);
      var x' := Entry("watched/x.txt", false, 2);
      var o0 := Scan(map[], [root], {"watched"});
      var o1 := Scan(o0.tracked, [root, Found(x)], {"watched", x.path});
      var o2 := Scan(o1.tracked, [root, Found(x')], {"watched", x.path});
      var o3 := Scan(o2.tracked, [root], {"watched"});
      && o0.changes == [] && o0.removed == {}
      && o1.changes == [Created(x.path)] && o1.removed == {}
      && o2.changes == [Modified(x.path)] && o2.removed == {}
      && o3.changes == [] && o3.removed == {x.path} && o3.tracked == map[]
  {
    var root := Entry("watched", true, 0);
    var x := Entry("watched/x.txt", false, 1);
    var x' := Entry("watched/x.txt", false, 2);
    assert Processed([Found(root)]) == [root];
    assert [Found(root), Found(x)][1..] == [Found(x)];
    assert [Found(root), Found(x')][1..] == [Found(x')];
    assert Processed([Found(x)]) == [x];
    assert Processed([Found(x')]) == [x'];
    assert Processed([Found(root), Found(x)]) == [root, x];
    assert Processed([Found(root), Found(x')]) == [root, x'];
  }

  /**
   * A tracked file replaced by a directory of the same name stays tracked:
   * the walk no longer reports it as a file, but os.Stat still finds the path.
   */
  lemma FileReplacedByDirectoryStaysTracked()
    ensures var o := Scan(map["watched/d" := 1], [Found(Entry("watched/d", true, 5))], {"watched/d"});
      o.tracked == map["watched/d" := 1] && o.changes == [] && o.removed == {}
  {
    assert Processed([Found(Entry("watched/d", true, 5))]) == [Entry("watched/d", true, 5)];
  }
}
