/** Finding the files inside a chosen or dropped folder: frontend/src/lib/folderFiles.ts. */
module FolderWalk {
  import opened Options
  import opened Text

  /** MAX_FOLDER_FILES. */
  const MAX_FILES := 500

  /** What a dropped item is: a file the browser can or cannot read, a folder with the
      reader of its entries, or neither. */
  datatype Entry =
    | FileEntry(name: string, fullPath: string, readable: bool)
    | FolderEntry(name: string, fullPath: string, reader: Reader)
    | OtherEntry(name: string, fullPath: string)

  /** What the calls of `readEntries` return, one after the other. */
  datatype Reader = Batch(entries: seq<Entry>, next: Reader) | End | Failure

  // ----- paths

  function NonEmpty(parts: seq<string>): seq<string> {
    if parts == [] then []
    else (if parts[0] == "" then [] else [parts[0]]) + NonEmpty(parts[1..])
  }

  function Lower(s: string): (r: string)
    ensures |r| == |s|
  {
    if s == "" then "" else [if 'A' <= s[0] <= 'Z' then s[0] + ' ' else s[0]] + Lower(s[1..])
  }

  const SYSTEM_FILE_NAMES := {"thumbs.db", "desktop.ini", "ehthumbs.db"}

  predicate Hidden(part: string) {
    part != "" && part[0] == '.'
  }

  /** isIgnoredPath. */
  predicate IsIgnored(path: string) {
    var parts := NonEmpty(Split(path, '/'));
    var name := if parts == [] then "" else parts[|parts| - 1];
    Lower(name) in SYSTEM_FILE_NAMES || exists i :: 0 <= i < |parts| && Hidden(parts[i])
  }

  function StripSlashes(path: string): string {
    if path != "" && path[0] == '/' then StripSlashes(path[1..]) else path
  }

  function PathOf(entry: Entry): string {
    var stripped := StripSlashes(entry.fullPath);
    if stripped == "" then entry.name else stripped
  }

  /** Letters of the Latin alphabet become small, and nothing else changes. */
  lemma {:induction false} LowerIs(s: string, i: nat)
    requires i < |s|
    ensures Lower(s)[i] == if 65 <= s[i] as int <= 90 then (s[i] as int + 32) as char else s[i]
  {
    if i > 0 {
      LowerIs(s[1..], i - 1);
    }
  }

  /** The path of an entry is its full path without the slashes it starts with, or its name
      where that leaves nothing. */
  lemma {:induction false} PathOfIs(entry: Entry) returns (k: nat)
    ensures k <= |entry.fullPath| && forall i :: 0 <= i < k ==> entry.fullPath[i] == '/'
    ensures if k == |entry.fullPath| then PathOf(entry) == entry.name
            else entry.fullPath[k] != '/' && PathOf(entry) == entry.fullPath[k..]
  {
    k := 0;
    while k < |entry.fullPath| && entry.fullPath[k] == '/'
      invariant k <= |entry.fullPath| && forall i :: 0 <= i < k ==> entry.fullPath[i] == '/'
      invariant StripSlashes(entry.fullPath) == StripSlashes(entry.fullPath[k..])
    {
      assert entry.fullPath[k..][1..] == entry.fullPath[k + 1..];
      k := k + 1;
    }
  }

  /** A dot that starts the path or follows a slash. */
  predicate DotAt(path: string, i: int) {
    0 <= i < |path| && path[i] == '.' && (i == 0 || path[i - 1] == '/')
  }

  ghost predicate LaterHidden(parts: seq<string>) {
    exists k :: 0 < k < |parts| && Hidden(parts[k])
  }

  ghost predicate LaterDot(path: string) {
    exists i :: i > 0 && DotAt(path, i)
  }

  lemma {:induction false} SplitHides(path: string)
    ensures Hidden(Split(path, '/')[0]) <==> DotAt(path, 0)
    ensures LaterHidden(Split(path, '/')) <==> LaterDot(path)
  {
    if path != "" {
      var tail := path[1..];
      var rest, parts := Split(tail, '/'), Split(path, '/');
      SplitHides(tail);
      DotShifts(path);
      hide LaterDot;
      if path[0] == '/' {
        assert parts == [""] + rest;
        if LaterHidden(parts) {
          var k :| 0 < k < |parts| && Hidden(parts[k]);
          assert Hidden(rest[k - 1]);
          assert k == 1 || LaterHidden(rest);
        }
        if Hidden(rest[0]) {
          assert Hidden(parts[1]);
        }
        if LaterHidden(rest) {
          var k :| 0 < k < |rest| && Hidden(rest[k]);
          assert Hidden(parts[k + 1]);
        }
      } else {
        assert parts == [[path[0]] + rest[0]] + rest[1..];
        assert forall k :: 0 < k < |parts| ==> parts[k] == rest[k];
      }
    }
  }

  lemma DotShifts(path: string)
    requires path != ""
    ensures path[0] == '/' ==> (LaterDot(path) <==> DotAt(path[1..], 0) || LaterDot(path[1..]))
    ensures path[0] != '/' ==> (LaterDot(path) <==> LaterDot(path[1..]))
  {
    var tail := path[1..];
    if LaterDot(path) {
      var i :| i > 0 && DotAt(path, i);
      assert i > 1 || path[0] == '/' ==> DotAt(tail, i - 1);
    }
    if DotAt(tail, 0) && path[0] == '/' {
      assert DotAt(path, 1);
    }
    if LaterDot(tail) {
      var i :| i > 0 && DotAt(tail, i);
      assert DotAt(path, i + 1);
    }
  }

  lemma {:induction false} NonEmptyParts(parts: seq<string>)
    ensures forall part :: part in NonEmpty(parts) <==> part != "" && part in parts
  {
    if parts != [] {
      NonEmptyParts(parts[1..]);
    }
  }

  /** A path is ignored exactly when a name in it starts with a dot, or its last name is
      that of a system file in any letter case. */
  lemma {:induction false} IgnoredExactly(path: string)
    ensures var parts := NonEmpty(Split(path, '/'));
            IsIgnored(path) <==>
              || (exists i :: DotAt(path, i))
              || (parts != [] && Lower(parts[|parts| - 1]) in SYSTEM_FILE_NAMES)
  {
    hide Split, NonEmpty, Lower;
    var all := Split(path, '/');
    var parts := NonEmpty(all);
    NonEmptyParts(all);
    SplitHides(path);
    if i :| 0 <= i < |parts| && Hidden(parts[i]) {
      assert parts[i] in all;
      var k :| 0 <= k < |all| && all[k] == parts[i];
      assert k == 0 || LaterHidden(all);
      assert k == 0 ==> DotAt(path, 0);
    }
    if i :| DotAt(path, i) {
      assert i == 0 || LaterDot(path);
      var k :| 0 <= k < |all| && Hidden(all[k]);
      assert all[k] in parts;
      var m :| 0 <= m < |parts| && parts[m] == all[k];
      assert Hidden(parts[m]);
    }
  }

  /** Everything below a hidden folder is hidden, so skipping it whole loses nothing. */
  lemma {:induction false} HiddenBelow(folder: string, rest: string)
    requires exists i :: DotAt(folder, i)
    ensures IsIgnored(folder + rest)
  {
    var i :| DotAt(folder, i);
    assert DotAt(folder + rest, i);
    IgnoredExactly(folder + rest);
  }

  // ----- what there is to find

  /** The paths of the acceptable, readable files, depth first. Hidden folders are not
      entered; a folder's entries are those read before the reader ends or fails. */
  function Found(entry: Entry): seq<string>
    decreases entry
  {
    if IsIgnored(PathOf(entry)) then []
    else
      match entry
      case FileEntry(_, _, readable) => if readable then [PathOf(entry)] else []
      case FolderEntry(_, _, reader) => FoundBy(reader)
      case OtherEntry(_, _) => []
  }

  function FoundBy(reader: Reader): seq<string>
    decreases reader
  {
    match reader
    case Batch(entries, next) => if entries == [] then [] else FoundIn(entries) + FoundBy(next)
    case _ => []
  }

  function FoundIn(entries: seq<Entry>): seq<string>
    decreases entries
  {
    if entries == [] then [] else Found(entries[0]) + FoundIn(entries[1..])
  }

  /** Files and folders left out as hidden or system files. */
  function Ignored(entry: Entry): nat
    decreases entry
  {
    match entry
    case FileEntry(_, _, _) => if IsIgnored(PathOf(entry)) then 1 else 0
    case FolderEntry(_, _, reader) => if IsIgnored(PathOf(entry)) then 1 else IgnoredBy(reader)
    case OtherEntry(_, _) => 0
  }

  function IgnoredBy(reader: Reader): nat
    decreases reader
  {
    match reader
    case Batch(entries, next) => if entries == [] then 0 else IgnoredIn(entries) + IgnoredBy(next)
    case _ => 0
  }

  function IgnoredIn(entries: seq<Entry>): nat
    decreases entries
  {
    if entries == [] then 0 else Ignored(entries[0]) + IgnoredIn(entries[1..])
  }

  /** Files and folders the browser could not read. */
  function Unreadable(entry: Entry): nat
    decreases entry
  {
    if IsIgnored(PathOf(entry)) then 0
    else
      match entry
      case FileEntry(_, _, readable) => if readable then 0 else 1
      case FolderEntry(_, _, reader) => UnreadableBy(reader)
      case OtherEntry(_, _) => 0
  }

  function UnreadableBy(reader: Reader): nat
    decreases reader
  {
    match reader
    case Batch(entries, next) => if entries == [] then 0 else UnreadableIn(entries) + UnreadableBy(next)
    case End => 0
    case Failure => 1
  }

  function UnreadableIn(entries: seq<Entry>): nat
    decreases entries
  {
    if entries == [] then 0 else Unreadable(entries[0]) + UnreadableIn(entries[1..])
  }

  // ----- the same, told from a list of everything that is looked at

  /** What is looked at, depth first: the entry, and unless it is hidden what is in it. */
  function Visited(entry: Entry): seq<Entry>
    decreases entry
  {
    [entry] + if entry.FolderEntry? && !IsIgnored(PathOf(entry)) then VisitedBy(entry.reader) else []
  }

  function VisitedBy(reader: Reader): seq<Entry>
    decreases reader
  {
    if reader.Batch? && reader.entries != [] then VisitedIn(reader.entries) + VisitedBy(reader.next) else []
  }

  function VisitedIn(entries: seq<Entry>): seq<Entry>
    decreases entries
  {
    if entries == [] then [] else Visited(entries[0]) + VisitedIn(entries[1..])
  }

  /** The paths of those that are files to take. */
  function Taken(entries: seq<Entry>): seq<string> {
    if entries == [] then [] else TakenOf(entries[0]) + Taken(entries[1..])
  }

  function TakenOf(e: Entry): seq<string> {
    if e.FileEntry? && e.readable && !IsIgnored(PathOf(e)) then [PathOf(e)] else []
  }

  function Count(entries: seq<Entry>, what: Entry -> bool): nat {
    if entries == [] then 0 else Count(entries[1..], what) + if what(entries[0]) then 1 else 0
  }

  function IsLeftOut(): Entry -> bool {
    (e: Entry) => !e.OtherEntry? && IsIgnored(PathOf(e))
  }

  /** A file that cannot be read, or a folder whose reader fails before its end. */
  function CannotBeRead(): Entry -> bool {
    (e: Entry) => !IsIgnored(PathOf(e)) && match e
      case FileEntry(_, _, readable) => !readable
      case FolderEntry(_, _, reader) => Fails(reader)
      case OtherEntry(_, _) => false
  }

  predicate Fails(reader: Reader) {
    reader.Failure? || (reader.Batch? && reader.entries != [] && Fails(reader.next))
  }

  lemma {:induction false} CountJoined(a: seq<Entry>, b: seq<Entry>, what: Entry -> bool)
    ensures Count(a + b, what) == Count(a, what) + Count(b, what)
  {
    if a == [] {
      assert a + b == b;
    } else {
      CountJoined(a[1..], b, what);
      assert (a + b)[1..] == a[1..] + b;
    }
  }

  lemma FirstOfJoin<T>(a: seq<T>, b: seq<T>)
    requires a != []
    ensures a + b != [] && (a + b)[0] == a[0] && (a + b)[1..] == a[1..] + b
  {
  }

  lemma Regroup<T>(a: seq<T>, b: seq<T>, c: seq<T>)
    ensures a + (b + c) == a + b + c
  {
  }

  lemma {:induction false} TakenJoined(a: seq<Entry>, b: seq<Entry>)
    ensures Taken(a + b) == Taken(a) + Taken(b)
  {
    hide TakenOf;
    if a == [] {
      assert a + b == b;
    } else {
      TakenJoined(a[1..], b);
      FirstOfJoin(a, b);
      Regroup(TakenOf(a[0]), Taken(a[1..]), Taken(b));
    }
  }

  lemma Joined(a: seq<Entry>, b: seq<Entry>)
    ensures Taken(a + b) == Taken(a) + Taken(b)
    ensures Count(a + b, IsLeftOut()) == Count(a, IsLeftOut()) + Count(b, IsLeftOut())
    ensures Count(a + b, CannotBeRead()) == Count(a, CannotBeRead()) + Count(b, CannotBeRead())
  {
    TakenJoined(a, b);
    CountJoined(a, b, IsLeftOut());
    CountJoined(a, b, CannotBeRead());
  }

  lemma OnlyOne(entry: Entry)
    ensures Taken([entry]) == if entry.FileEntry? && entry.readable && !IsIgnored(PathOf(entry)) then [PathOf(entry)]
                              else []
    ensures Count([entry], IsLeftOut()) == if IsLeftOut()(entry) then 1 else 0
    ensures Count([entry], CannotBeRead()) == if CannotBeRead()(entry) then 1 else 0
  {
    hide IsIgnored, PathOf;
    assert [entry][1..] == [];
  }

  /** What is found, left out and unreadable, of everything looked at. */
  lemma {:induction false} FoundOfVisited(entry: Entry)
    ensures Found(entry) == Taken(Visited(entry))
    ensures Ignored(entry) == Count(Visited(entry), IsLeftOut())
    ensures Unreadable(entry) == Count(Visited(entry), CannotBeRead())
    decreases entry, 1
  {
    hide IsIgnored, PathOf, Taken, Count;
    OnlyOne(entry);
    if entry.FolderEntry? && !IsIgnored(PathOf(entry)) {
      FoundOfReader(entry.reader);
      Joined([entry], VisitedBy(entry.reader));
    } else {
      assert Visited(entry) == [entry];
    }
  }

  lemma {:induction false} FoundOfReader(reader: Reader)
    ensures FoundBy(reader) == Taken(VisitedBy(reader))
    ensures IgnoredBy(reader) == Count(VisitedBy(reader), IsLeftOut())
    ensures UnreadableBy(reader) == Count(VisitedBy(reader), CannotBeRead()) + if Fails(reader) then 1 else 0
    decreases reader, 0
  {
    hide IsIgnored, PathOf, IsLeftOut, CannotBeRead;
    if reader.Batch? && reader.entries != [] {
      FoundOfEntries(reader.entries);
      FoundOfReader(reader.next);
      Joined(VisitedIn(reader.entries), VisitedBy(reader.next));
    }
  }

  lemma {:induction false} FoundOfEntries(entries: seq<Entry>)
    ensures FoundIn(entries) == Taken(VisitedIn(entries))
    ensures IgnoredIn(entries) == Count(VisitedIn(entries), IsLeftOut())
    ensures UnreadableIn(entries) == Count(VisitedIn(entries), CannotBeRead())
    decreases entries, 0
  {
    hide IsIgnored, PathOf, IsLeftOut, CannotBeRead, Found, Ignored, Unreadable, Visited;
    if entries != [] {
      FoundOfVisited(entries[0]);
      FoundOfEntries(entries[1..]);
      Joined(Visited(entries[0]), VisitedIn(entries[1..]));
    }
  }

  /** At most the first MAX_FILES. */
  function Cap(paths: seq<string>): (r: seq<string>)
    ensures r <= paths && |r| == if |paths| < MAX_FILES then |paths| else MAX_FILES
  {
    if |paths| > MAX_FILES then paths[..MAX_FILES] else paths
  }

  lemma CapMore(a: seq<string>, b: seq<string>)
    ensures Cap(Cap(a) + b) == Cap(a + b)
  {
  }

  // ----- the walk

  class Scan {
    var files: seq<string>
    var folders: nat
    var skipped: nat
    var unreadable: nat
    var truncated: bool

    ghost predicate Valid()
      reads this
    {
      |files| <= MAX_FILES && (truncated ==> |files| == MAX_FILES)
    }

    constructor ()
      ensures Valid() && files == [] && folders == skipped == unreadable == 0 && !truncated
    {
      files, folders, skipped, unreadable, truncated := [], 0, 0, 0, false;
    }

    method Take(path: string)
      requires Valid()
      modifies this
      ensures Valid() && folders == old(folders) && unreadable == old(unreadable)
      ensures files == if IsIgnored(path) then old(files) else Cap(old(files) + [path])
      ensures skipped == old(skipped) + if IsIgnored(path) then 1 else 0
      ensures truncated == (old(truncated) || (!IsIgnored(path) && |old(files)| == MAX_FILES))
    {
      if IsIgnored(path) {
        skipped := skipped + 1;
      } else if |files| >= MAX_FILES {
        truncated := true;
      } else {
        files := files + [path];
      }
    }

    /** `full`: once the cap is reached, the list is said to be cut short. */
    method Full() returns (full: bool)
      requires Valid()
      modifies `truncated
      ensures Valid() && full == (|files| == MAX_FILES) && truncated == (old(truncated) || full)
    {
      if |files| < MAX_FILES {
        return false;
      }
      truncated := true;
      return true;
    }

    /** The scan after walking something that holds these files, unless cut short. */
    twostate predicate Walked(found: seq<string>, ignored: nat, unread: nat)
      reads this
    {
      && Valid() && folders == old(folders)
      && files == Cap(old(files) + found)
      && (|old(files) + found| > MAX_FILES ==> truncated)
      && (old(truncated) ==> truncated)
      && (!truncated ==> skipped == old(skipped) + ignored && unreadable == old(unreadable) + unread)
    }

    /** `walk`: depth first, batch by batch, stopping at the cap. */
    method Walk(entry: Entry)
      requires Valid()
      modifies this
      ensures Walked(Found(entry), Ignored(entry), Unreadable(entry))
      ensures truncated == (old(truncated) || |old(files)| == MAX_FILES
                            || (entry.FolderEntry? && |old(files) + Found(entry)| >= MAX_FILES))
      decreases entry, 1
    {
      var path := PathOf(entry);
      var stop := truncated;
      if !stop {
        stop := Full();
      }
      if stop {
        return;
      }
      match entry {
        case FolderEntry(_, _, reader) =>
          if IsIgnored(path) {
            skipped := skipped + 1;
            return;
          }
          WalkFolder(reader);
        case FileEntry(_, _, readable) =>
          if IsIgnored(path) {
            skipped := skipped + 1;
            return;
          }
          if readable {
            Take(path);
          } else {
            unreadable := unreadable + 1;
          }
        case OtherEntry(_, _) =>
      }
    }

    /** The loop over a folder's batches. */
    method WalkFolder(reader: Reader)
      requires Valid() && !truncated
      modifies this
      ensures Walked(FoundBy(reader), IgnoredBy(reader), UnreadableBy(reader))
      ensures truncated == (|old(files) + FoundBy(reader)| >= MAX_FILES)
      decreases reader, 0
    {
      hide IsIgnored, PathOf, Found, Ignored, Unreadable, FoundIn, IgnoredIn, UnreadableIn;
      var left := reader;
      while true
        invariant Valid() && !truncated && folders == old(folders)
        invariant files + FoundBy(left) == old(files) + FoundBy(reader)
        invariant skipped + IgnoredBy(left) == old(skipped) + IgnoredBy(reader)
        invariant unreadable + UnreadableBy(left) == old(unreadable) + UnreadableBy(reader)
        invariant left == reader || left < reader
        decreases left
      {
        var full := Full();
        if full {
          return;
        }
        if left.Failure? {
          unreadable := unreadable + 1;
          return;
        }
        if left.End? || left.entries == [] {
          return;
        }
        WalkBatch(left.entries);
        if truncated {
          return;
        }
        left := left.next;
      }
    }

    /** The loop over one batch. */
    method WalkBatch(entries: seq<Entry>)
      requires Valid() && !truncated && |files| < MAX_FILES
      modifies this
      ensures Walked(FoundIn(entries), IgnoredIn(entries), UnreadableIn(entries))
      decreases entries, 0
    {
      hide IsIgnored, PathOf, Found, Ignored, Unreadable, FoundBy, IgnoredBy, UnreadableBy;
      for k := 0 to |entries|
        invariant Valid() && !truncated && folders == old(folders)
        invariant files + FoundIn(entries[k..]) == old(files) + FoundIn(entries)
        invariant skipped + IgnoredIn(entries[k..]) == old(skipped) + IgnoredIn(entries)
        invariant unreadable + UnreadableIn(entries[k..]) == old(unreadable) + UnreadableIn(entries)
      {
        assert entries[k..][0] == entries[k] && entries[k..][1..] == entries[k + 1..];
        Walk(entries[k]);
        if truncated {
          return;
        }
      }
    }
  }

  // ----- batches do not matter

  /** The entries a reader gives before it ends or fails. */
  function Delivered(reader: Reader): seq<Entry>
    decreases reader
  {
    match reader
    case Batch(entries, next) => if entries == [] then [] else entries + Delivered(next)
    case _ => []
  }

  lemma {:induction false} FoundInSplit(a: seq<Entry>, b: seq<Entry>)
    ensures FoundIn(a + b) == FoundIn(a) + FoundIn(b)
  {
    hide Found;
    if a == [] {
      assert a + b == b;
    } else {
      FoundInSplit(a[1..], b);
      FirstOfJoin(a, b);
      Regroup(Found(a[0]), FoundIn(a[1..]), FoundIn(b));
    }
  }

  /** What is found depends on the entries a reader gives, not on how it batches them
      or on whether it ends or fails. */
  lemma {:induction false} FoundAsDelivered(reader: Reader)
    ensures FoundBy(reader) == FoundIn(Delivered(reader))
    decreases reader
  {
    match reader
    case Batch(entries, next) =>
      if entries != [] {
        FoundAsDelivered(next);
        FoundInSplit(entries, Delivered(next));
      }
    case _ =>
  }

  // ----- scans

  function FolderCount(entries: seq<Entry>): nat {
    if entries == [] then 0 else FolderCount(entries[1..]) + if entries[0].FolderEntry? then 1 else 0
  }

  /** The last item is a file that was taken. */
  predicate EndsWithTaken(entries: seq<Entry>) {
    entries != [] && entries[|entries| - 1].FileEntry? && Found(entries[|entries| - 1]) != []
  }

  lemma {:induction false} LastOf(entries: seq<Entry>, k: nat)
    requires k < |entries|
    ensures FoundIn(entries[..k + 1]) == FoundIn(entries[..k]) + Found(entries[k])
    ensures FolderCount(entries[..k + 1]) == FolderCount(entries[..k]) + if entries[k].FolderEntry? then 1 else 0
    ensures IgnoredIn(entries[..k + 1]) == IgnoredIn(entries[..k]) + Ignored(entries[k])
    ensures UnreadableIn(entries[..k + 1]) == UnreadableIn(entries[..k]) + Unreadable(entries[k])
  {
    hide Found, Ignored, Unreadable;
    if k == 0 {
      assert entries[..1][1..] == [] && entries[..0] == [];
    } else {
      LastOf(entries[1..], k - 1);
      assert entries[..k + 1][1..] == entries[1..][..k] && entries[..k][1..] == entries[1..][..k - 1];
    }
  }

  /** There are more files than the cap, or exactly as many and something after the
      last of them was looked at. */
  predicate CutShort(entries: seq<Entry>) {
    || |FoundIn(entries)| > MAX_FILES
    || (|FoundIn(entries)| == MAX_FILES && !EndsWithTaken(entries))
  }

  lemma CutShortStep(entries: seq<Entry>, k: nat)
    requires k < |entries|
    ensures var before := Cap(FoundIn(entries[..k]));
            CutShort(entries[..k + 1]) ==
              (CutShort(entries[..k]) || |before| == MAX_FILES
               || (entries[k].FolderEntry? && |before + Found(entries[k])| >= MAX_FILES))
  {
    LastOf(entries, k);
    assert entries[..k + 1][k] == entries[k];
    hide FoundIn, FoundBy;
  }

  lemma NothingDropped(entries: seq<Entry>)
    ensures Cap(FoundIn(entries[..0])) == [] && FolderCount(entries[..0]) == 0 && !CutShort(entries[..0])
    ensures IgnoredIn(entries[..0]) == 0 && UnreadableIn(entries[..0]) == 0
    ensures |FoundIn(entries)| > MAX_FILES ==> CutShort(entries)
  {
  }

  /** The scan of dropped entries: the first MAX_FILES acceptable readable files in
      depth-first order. It is cut short exactly when there are more, or when exactly
      that many were found before the last dropped item was over. */
  method ScanEntries(entries: seq<Entry>) returns (scan: Scan)
    ensures fresh(scan) && scan.Valid()
    ensures scan.files == Cap(FoundIn(entries)) && scan.folders == FolderCount(entries)
    ensures scan.truncated <==> CutShort(entries)
    ensures scan.truncated ==> |scan.files| == MAX_FILES
    ensures |FoundIn(entries)| > MAX_FILES ==> scan.truncated
    ensures !scan.truncated ==> scan.skipped == IgnoredIn(entries) && scan.unreadable == UnreadableIn(entries)
  {
    hide FoundIn, Found, IgnoredIn, Ignored, UnreadableIn, Unreadable, FolderCount, CutShort, Cap, IsIgnored, PathOf;
    NothingDropped(entries);
    scan := new Scan();
    for k := 0 to |entries|
      invariant fresh(scan) && scan.Valid()
      invariant scan.files == Cap(FoundIn(entries[..k])) && scan.folders == FolderCount(entries[..k])
      invariant scan.truncated <==> CutShort(entries[..k])
      invariant !scan.truncated ==>
        scan.skipped == IgnoredIn(entries[..k]) && scan.unreadable == UnreadableIn(entries[..k])
    {
      LastOf(entries, k);
      CutShortStep(entries, k);
      CapMore(FoundIn(entries[..k]), Found(entries[k]));
      if entries[k].FolderEntry? {
        scan.folders := scan.folders + 1;
      }
      scan.Walk(entries[k]);
    }
    assert entries[..|entries|] == entries;
  }

  /** `n` files to drop. */
  function Files(n: nat): (entries: seq<Entry>)
    ensures |entries| == n && forall k :: 0 <= k < n ==> entries[k] == FileEntry("a", "/a", true)
  {
    seq(n, _ => FileEntry("a", "/a", true))
  }

  /** A name of one letter, below the top. */
  lemma LetterPath(c: char)
    requires c != '/' && c != '.' && !('A' <= c <= 'Z')
    ensures StripSlashes(['/', c]) == [c] && !IsIgnored([c])
  {
    assert ['/', c][1..] == [c] && [c][1..] == "";
    var rest := Split("", '/');
    assert rest == [""] && [c] + rest[0] == [c] && rest[1..] == [];
    assert Split([c], '/') == [[c]];
    assert NonEmpty([[c]]) == [[c]];
    assert |Lower([c])| == 1;
  }

  lemma OneFound()
    ensures Found(FileEntry("a", "/a", true)) == ["a"]
  {
    LetterPath('a');
  }

  lemma {:induction false} AllFound(n: nat)
    ensures |FoundIn(Files(n))| == n
  {
    hide Found;
    if n > 0 {
      OneFound();
      AllFound(n - 1);
      assert Files(n)[1..] == Files(n - 1);
    }
  }

  /** As many files as the cap allows, in one folder: all of them are taken, and yet the
      drop counts as cut short. Dropped by themselves the same files do not. */
  lemma {:induction false} FullFolderCountsAsCutShort(n: nat)
    requires n == MAX_FILES
    ensures var folder := [FolderEntry("f", "/f", Batch(Files(n), End))];
            Cap(FoundIn(folder)) == FoundIn(folder) == FoundIn(Files(n)) && CutShort(folder) && !CutShort(Files(n))
  {
    AllFound(n);
    OneFound();
    FolderFound(n);
    hide Found, FoundIn;
  }

  lemma FolderFound(n: nat)
    requires n > 0
    ensures FoundIn([FolderEntry("f", "/f", Batch(Files(n), End))]) == FoundIn(Files(n))
  {
    var folder := FolderEntry("f", "/f", Batch(Files(n), End));
    LetterPath('f');
    assert !IsIgnored(PathOf(folder));
    assert Found(folder) == FoundBy(Batch(Files(n), End)) == FoundIn(Files(n)) + FoundBy(End);
    assert [folder][1..] == [];
  }

  // ----- the folder picker

  datatype PickedFile = PickedFile(name: string, relativePath: string)

  function PickedPath(file: PickedFile): (path: string)
    ensures |file.relativePath| > 0 ==> path == file.relativePath
    ensures file.relativePath == "" ==> path == file.name
  {
    if file.relativePath == "" then file.name else file.relativePath
  }

  /** The acceptable paths among these, in order. */
  function Acceptable(files: seq<PickedFile>): seq<string> {
    if files == [] then []
    else
      var last := PickedPath(files[|files| - 1]);
      Acceptable(files[..|files| - 1]) + if IsIgnored(last) then [] else [last]
  }

  /** They are the paths of the files that are not ignored, each once and in order: a path
      inside the picked folder, or the name of a file picked by itself. */
  lemma {:induction false} AcceptableAre(files: seq<PickedFile>) returns (picked: seq<nat>)
    ensures forall i, j :: 0 <= i < j < |picked| ==> picked[i] < picked[j]
    ensures forall m: nat :: m in picked <==> m < |files| && !IsIgnored(PickedPath(files[m]))
    ensures |Acceptable(files)| == |picked|
    ensures forall i :: 0 <= i < |picked| ==>
              picked[i] < |files| && Acceptable(files)[i] == PickedPath(files[picked[i]])
  {
    hide IsIgnored, PickedPath;
    picked := [];
    if files != [] {
      var n := |files| - 1;
      picked := AcceptableAre(files[..n]);
      assert forall i :: 0 <= i < |picked| ==> picked[i] in picked;
      if !IsIgnored(PickedPath(files[n])) {
        picked := picked + [n];
      }
    }
  }

  function TopFolders(files: seq<PickedFile>): set<string> {
    set file <- files | '/' in file.relativePath :: Split(file.relativePath, '/')[0]
  }

  lemma PickNone(files: seq<PickedFile>)
    ensures Acceptable(files[..0]) == [] && TopFolders(files[..0]) == {} && Cap([]) == []
  {
  }

  lemma PickOne(files: seq<PickedFile>, k: nat)
    requires k < |files|
    ensures var path := PickedPath(files[k]);
            Acceptable(files[..k + 1])
              == if IsIgnored(path) then Acceptable(files[..k]) else Acceptable(files[..k]) + [path]
    ensures var path := files[k].relativePath;
            TopFolders(files[..k + 1]) == TopFolders(files[..k]) + if '/' in path then {Split(path, '/')[0]} else {}
  {
    hide IsIgnored, PickedPath, Split;
    assert files[..k + 1] == files[..k] + [files[k]];
  }

  /** scanFileList: here the list is cut short exactly when files are left out. */
  method ScanFileList(files: seq<PickedFile>) returns (scan: Scan)
    ensures fresh(scan) && scan.Valid()
    ensures scan.files == Cap(Acceptable(files))
    ensures scan.truncated <==> |Acceptable(files)| > MAX_FILES
    ensures scan.skipped + |Acceptable(files)| == |files| && scan.unreadable == 0
    ensures scan.folders == |TopFolders(files)|
  {
    PickNone(files);
    hide Acceptable, TopFolders, IsIgnored, Split, PickedPath, Cap;
    scan := new Scan();
    var topFolders := {};
    for k := 0 to |files|
      invariant fresh(scan) && scan.Valid()
      invariant scan.files == Cap(Acceptable(files[..k]))
      invariant scan.truncated <==> |Acceptable(files[..k])| > MAX_FILES
      invariant scan.skipped + |Acceptable(files[..k])| == k && scan.unreadable == 0
      invariant topFolders == TopFolders(files[..k])
    {
      var file := files[k];
      PickOne(files, k);
      CapMore(Acceptable(files[..k]), [PickedPath(file)]);
      if '/' in file.relativePath {
        topFolders := topFolders + {Split(file.relativePath, '/')[0]};
      }
      scan.Take(PickedPath(file));
    }
    assert files[..|files|] == files;
    scan.folders := |topFolders|;
  }

  // ----- a drop

  /** One item of a drop; `entry` is what webkitGetAsEntry gives, where there is one. */
  datatype Item = Item(isFile: bool, hasEntries: bool, entry: Option<Entry>)

  function EntriesOf(items: seq<Item>): seq<Entry> {
    if items == [] then []
    else
      var last := items[|items| - 1];
      EntriesOf(items[..|items| - 1]) + if last.isFile && last.entry.Some? then [last.entry.value] else []
  }

  /** Every dropped file can be read as an entry, and there is one. */
  predicate UsesEntries(items: seq<Item>) {
    (forall item <- items :: item.isFile ==> item.hasEntries) && EntriesOf(items) != []
  }

  /** scanDataTransfer: the dropped entries, or the plain file list where the browser
      gives no entries. */
  method ScanDataTransfer(items: seq<Item>, files: seq<PickedFile>) returns (scan: Scan)
    ensures fresh(scan) && scan.Valid()
    ensures scan.files == Cap(if UsesEntries(items) then FoundIn(EntriesOf(items)) else Acceptable(files))
    ensures scan.truncated <==>
      if UsesEntries(items) then CutShort(EntriesOf(items)) else |Acceptable(files)| > MAX_FILES
  {
    hide Cap, FoundIn, Acceptable, CutShort;
    var entries := [];
    var entriesAvailable := |items| > 0;
    for k := 0 to |items|
      invariant entries == EntriesOf(items[..k]) && entriesAvailable == (|items| > 0)
      invariant forall item <- items[..k] :: item.isFile ==> item.hasEntries
    {
      assert items[..k + 1] == items[..k] + [items[k]];
      if !items[k].isFile {
        continue;
      }
      if !items[k].hasEntries {
        entriesAvailable := false;
        break;
      }
      if items[k].entry.Some? {
        entries := entries + [items[k].entry.value];
      }
    }
    assert items[..|items|] == items;
    if !entriesAvailable || entries == [] {
      scan := ScanFileList(files);
    } else {
      scan := ScanEntries(entries);
    }
  }
}
