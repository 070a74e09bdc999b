/**
  * Deleting a book: its files move to the library's Trash, then its row goes, then the trashed
  * files are offered to the recycle bin. A failure on the way restores what has been moved.
  */
module Trash {
  import opened BookDatabase
  import opened Catalogue
  import CatalogueRuns
  import opened Decimals
  import opened FileStorage
  import opened ManagedLayout
  import opened ManagedStorage
  import opened MetadataNormalization
  import opened Wrappers

  // ---------------------------------------------------------------------------------------
  // Moving files
  // ---------------------------------------------------------------------------------------

  /** The files after one of them was renamed, over whatever was there. */
  function Renamed(files: Files, source: Path, destination: Path): Files
    requires source in files
  {
    (files - {source})[destination := files[source]]
  }

  /** A rename over another file leaves one file fewer, any other rename as many as before. */
  lemma RenamedCount(files: Files, source: Path, destination: Path)
    requires source in files
    ensures |Renamed(files, source, destination)| ==
            if destination in files && destination != source then |files| - 1 else |files|
  {
    var others := files.Keys - {source};
    assert Renamed(files, source, destination).Keys == others + {destination};
    assert |others| == |files| - 1;
    if destination in others {
      assert others + {destination} == others;
    }
  }

  /** A move that goes back undoes the first one exactly if nothing was overwritten. */
  lemma MovingBackRestoresIff(files: Files, source: Path, destination: Path)
    requires source in files && source != destination
    ensures Renamed(Renamed(files, source, destination), destination, source) == files <==> destination !in files
  {
  }

  /** The name a collision gets: a number between stem and extension. */
  function CollisionCandidate(path: Path, index: nat): Path
    requires path != []
  {
    if index == 0 then path
    else
      var name := FileName(path);
      Parent(path) + [name[..|name| - |Extension(name)|] + ".trashed-" + Decimal(index) + Extension(name)]
  }

  /** One of the first 999 candidates, all earlier ones being taken. */
  ghost predicate IsFirstFree(files: Files, template: Path, destination: Path)
    requires template != []
  {
    exists i :: 0 <= i < 999 && destination == CollisionCandidate(template, i)
                && forall k :: 0 <= k < i ==> CollisionCandidate(template, k) in files
  }

  /** The candidates are different names in the directory of the template. */
  lemma CandidatesDiffer(path: Path, i: nat, j: nat)
    requires path != []
    ensures Parent(path) <= CollisionCandidate(path, i)
    ensures CollisionCandidate(path, i) == CollisionCandidate(path, j) ==> i == j
  {
    var name := FileName(path);
    var stem, extension := name[..|name| - |Extension(name)|], Extension(name);
    assert name == stem + name[|stem|..];
    if i > 0 && j > 0 && CollisionCandidate(path, i) == CollisionCandidate(path, j) {
      var a, b := FileName(CollisionCandidate(path, i)), FileName(CollisionCandidate(path, j));
      assert a == stem + ".trashed-" + Decimal(i) + extension && b == stem + ".trashed-" + Decimal(j) + extension;
      assert Decimal(i) == a[|stem| + 9..|a| - |extension|];
      assert Decimal(j) == b[|stem| + 9..|b| - |extension|];
      DigitsValueOfDecimal(i);
      DigitsValueOfDecimal(j);
    } else if (i == 0 || j == 0) && i != j {
      assert |FileName(CollisionCandidate(path, if i == 0 then j else i))| > |name|;
    }
  }

  /** The number stands between the name and its extension. */
  lemma CandidateName(directory: Path, name: string, index: nat)
    requires name == "a.epub" && index == 2
    ensures CollisionCandidate(directory + [name], index) == directory + ["a.trashed-2.epub"]
  {
    var path := directory + [name];
    assert FileName(path) == name && Parent(path) == directory;
    LastDotIsLast(name, 1);
    assert LastDot(name) == 1 && Extension(name) == ".epub";
    assert Decimal(index) == "2";
    assert name[..1] + ".trashed-" + "2" + ".epub" == "a.trashed-2.epub";
  }

  class TrashService {
    const fs: FileSystem
    const libraryRoot: Path
    /** Whether the move operation fails on an existing destination; a plain rename does not. */
    const refusesOverwrite: bool

    constructor (fs: FileSystem, libraryRoot: Path, refusesOverwrite: bool)
      ensures this.fs == fs && this.libraryRoot == libraryRoot && this.refusesOverwrite == refusesOverwrite
    {
      this.fs, this.libraryRoot, this.refusesOverwrite := fs, libraryRoot, refusesOverwrite;
    }

    /** The same place below Trash as the file has below the library root. */
    function TrashDestination(source: Path): Option<Path> {
      if !(libraryRoot < source) || ".." in source[|libraryRoot|..] then None
      else Some(libraryRoot + ["Trash"] + source[|libraryRoot|..])
    }

    /** Nothing would be overwritten by moving this file to Trash. */
    predicate IsSafeToMove(files: Files, source: Path) {
      refusesOverwrite || TrashDestination(source).None? || TrashDestination(source).value !in files
    }

    /** The default operation on a file system without faults: every rename of a file succeeds. */
    ghost predicate IsReliable() {
      !refusesOverwrite && fs.NeverFails()
    }

    method Move(source: Path, destination: Path) returns (ok: bool)
      modifies fs`clock, fs`files
      ensures ok ==> source in old(fs.files) && fs.files == Renamed(old(fs.files), source, destination)
      ensures ok && refusesOverwrite ==> destination !in old(fs.files)
      ensures !ok ==> fs.files == old(fs.files)
      ensures IsReliable() && source in old(fs.files) ==> ok
      ensures old(fs.clock) <= fs.clock
      ensures !ok && source in old(fs.files) && !(refusesOverwrite && destination in old(fs.files)) ==> fs.FailsBetween(old(fs.clock), fs.clock)
    {
      if refusesOverwrite && destination in fs.files {
        return false;
      }
      ok := fs.Rename(source, destination);
    }

    /** The operation refuses to overwrite, and all the names it may try are taken. */
    ghost predicate HasNoPlace(files: Files, template: Path)
      requires template != []
    {
      refusesOverwrite && forall i :: 0 <= i < 999 ==> CollisionCandidate(template, i) in files
    }

    /** Tries the template and then numbered names, as long as the names tried are taken. */
    method MoveFileToCollisionSafeDestination(source: Path, template: Path) returns (destination: Option<Path>)
      requires template != []
      modifies fs`clock, fs`files
      ensures destination.Some? ==> source in old(fs.files) && fs.files == Renamed(old(fs.files), source, destination.value)
      ensures destination.Some? && (refusesOverwrite || template !in old(fs.files)) ==> destination.value !in old(fs.files)
      ensures destination.Some? ==> IsFirstFree(old(fs.files), template, destination.value)
      ensures destination.None? ==> fs.files == old(fs.files)
      ensures IsReliable() && source in old(fs.files) ==> destination == Some(template)
      ensures old(fs.clock) <= fs.clock
      ensures destination.None? && source in old(fs.files) ==>
                fs.FailsBetween(old(fs.clock), fs.clock) || HasNoPlace(old(fs.files), template)
    {
      for index := 1 to 1000
        invariant fs.files == old(fs.files)
        invariant IsReliable() && source in fs.files ==> index == 1
        invariant old(fs.clock) <= fs.clock
        invariant source in fs.files && index > 1 && !refusesOverwrite ==> fs.FailsBetween(old(fs.clock), fs.clock)
        invariant forall k :: 0 <= k < index - 1 ==> CollisionCandidate(template, k) in fs.files
      {
        var candidate := CollisionCandidate(template, index - 1);
        assert index > 1 ==> CollisionCandidate(template, 0) in fs.files;
        var ok := Move(source, candidate);
        if ok {
          return Some(candidate);
        }
        var inspected := fs.Attempt();
        if !inspected || candidate !in fs.files {
          return None;
        }
      }
      return None;
    }

    method MoveToTrash(path: Path) returns (destination: Option<Path>)
      modifies fs`clock, fs`files
      ensures destination.Some? ==> path in old(fs.files) && fs.files == Renamed(old(fs.files), path, destination.value)
      ensures destination.Some? && IsSafeToMove(old(fs.files), path) ==> destination.value !in old(fs.files)
      ensures destination.Some? ==> TrashDestination(path).Some? && IsFirstFree(old(fs.files), TrashDestination(path).value, destination.value)
      ensures destination.None? ==> fs.files == old(fs.files)
      ensures IsReliable() && path in old(fs.files) ==> destination == TrashDestination(path)
      ensures old(fs.clock) <= fs.clock
      ensures destination.None? && path in old(fs.files) && TrashDestination(path).Some? ==>
                fs.FailsBetween(old(fs.clock), fs.clock) || HasNoPlace(old(fs.files), TrashDestination(path).value)
    {
      var resolved := fs.Attempt();
      var template := TrashDestination(path);
      if !resolved || path !in fs.files || template.None? {
        return None;
      }
      var made := fs.Attempt();
      if !made {
        return None;
      }
      destination := MoveFileToCollisionSafeDestination(path, template.value);
    }

    method RestoreFromTrash(trashed: Path, destination: Path) returns (ok: bool)
      modifies fs`clock, fs`files
      ensures ok ==> trashed in old(fs.files) && fs.files == Renamed(old(fs.files), trashed, destination)
      ensures !ok ==> fs.files == old(fs.files)
      ensures IsReliable() && trashed in old(fs.files) && trashed != [] && destination != [] ==> ok
      ensures old(fs.clock) <= fs.clock
      ensures !ok && trashed in old(fs.files) && trashed != [] && destination != [] && !(refusesOverwrite && destination in old(fs.files)) ==>
                fs.FailsBetween(old(fs.clock), fs.clock)
    {
      if trashed == [] || destination == [] {
        return false;
      }
      var made := fs.Attempt();
      if !made {
        return false;
      }
      ok := Move(trashed, destination);
    }
  }

  // ---------------------------------------------------------------------------------------
  // Staging, restoring and the whole operation
  // ---------------------------------------------------------------------------------------

  datatype Entry = Entry(original: Path, trashed: Path)

  datatype Outcome = NotFound | Threw(restored: bool) | Trashed(toRecycleBin: bool, hasOrphanedFiles: bool)

  /** The files after moving the entries to Trash in order. */
  function AfterStaging(files: Files, entries: seq<Entry>): Files {
    if entries == [] then files
    else
      var last := entries[|entries| - 1];
      var before := AfterStaging(files, entries[..|entries| - 1]);
      if last.original in before then Renamed(before, last.original, last.trashed) else before
  }

  /** No entry was moved over another file. */
  predicate IsCleanStaging(files: Files, entries: seq<Entry>) {
    entries == []
    || (var last := entries[|entries| - 1];
        var before := AfterStaging(files, entries[..|entries| - 1]);
        && IsCleanStaging(files, entries[..|entries| - 1])
        && last.original in before && last.trashed !in before)
  }

  /** Each entry moved a file that was there to another place. */
  predicate WereMoved(files: Files, entries: seq<Entry>) {
    entries == []
    || (var last := entries[|entries| - 1];
        && WereMoved(files, entries[..|entries| - 1])
        && last.original in AfterStaging(files, entries[..|entries| - 1])
        && last.original != last.trashed)
  }

  /** Staging loses a file exactly if it moves one over another. */
  lemma {:induction false} StagingCount(files: Files, entries: seq<Entry>)
    requires WereMoved(files, entries)
    ensures |AfterStaging(files, entries)| <= |files|
    ensures |AfterStaging(files, entries)| == |files| <==> IsCleanStaging(files, entries)
  {
    if entries != [] {
      var init, last := entries[..|entries| - 1], entries[|entries| - 1];
      StagingCount(files, init);
      RenamedCount(AfterStaging(files, init), last.original, last.trashed);
    }
  }

  /** What a failed deletion may leave: the files as they were, or, after an overwrite, fewer. */
  predicate IsPutBack(before: Files, after: Files, isClean: bool) {
    if isClean then after == before else |after| < |before|
  }

  class TrashFacade {
    const db: Database
    const trash: TrashService
    const hasRecycleBin: bool
    const pathOf: Text -> Path

    constructor (db: Database, trash: TrashService, hasRecycleBin: bool, pathOf: Text -> Path)
      ensures this.db == db && this.trash == trash && this.pathOf == pathOf
    {
      this.db, this.trash, this.hasRecycleBin, this.pathOf := db, trash, hasRecycleBin, pathOf;
    }

    ghost predicate IsReady()
      reads this, db
    {
      db.saved == [] && CatalogueRuns.IsCatalogue(db.tables) && IsLawful(db.tokens)
    }

    /** Entries between places outside Trash and different places inside it. */
    ghost predicate GoToTrash(entries: seq<Entry>) {
      && (forall e :: e in entries ==> e.original != [] && !(TrashRoot() <= e.original) && TrashRoot() <= e.trashed)
      && (forall i, j :: 0 <= i < j < |entries| ==> entries[i].trashed != entries[j].trashed)
    }

    lemma {:induction false} TrashedAreThere(before: Files, entries: seq<Entry>)
      requires WereMoved(before, entries) && GoToTrash(entries)
      ensures forall i :: 0 <= i < |entries| ==> entries[i].trashed in AfterStaging(before, entries)
    {
      if entries != [] {
        var init := entries[..|entries| - 1];
        assert forall e :: e in init ==> e in entries;
        TrashedAreThere(before, init);
        assert forall i :: 0 <= i < |init| ==> init[i] == entries[i];
        assert entries[|entries| - 1] in entries;
      }
    }

    lemma OthersAreStillThere(entries: seq<Entry>, i: nat, now: Files)
      requires GoToTrash(entries) && i < |entries| && forall k :: 0 <= k <= i ==> entries[k].trashed in now
      ensures forall k :: 0 <= k < i ==> entries[k].trashed in Renamed(now, entries[i].trashed, entries[i].original)
    {
    }

    /** Putting the last of cleanly staged files back leaves the others cleanly staged. */
    lemma OneIsBack(before: Files, entries: seq<Entry>, i: nat, now: Files)
      requires i < |entries| && now == AfterStaging(before, entries[..i + 1]) && IsCleanStaging(before, entries[..i + 1])
      requires WereMoved(before, entries[..i + 1])
      ensures entries[i].trashed in now
      ensures Renamed(now, entries[i].trashed, entries[i].original) == AfterStaging(before, entries[..i])
      ensures IsCleanStaging(before, entries[..i]) && WereMoved(before, entries[..i])
    {
      assert entries[..i + 1][..i] == entries[..i];
      MovingBackRestoresIff(AfterStaging(before, entries[..i]), entries[i].original, entries[i].trashed);
    }

    /**
      * Puts the staged files back, the last one first, and stops at the first failure. If all are
      * put back, the files are as they were exactly if the staging overwrote nothing.
      */
    method RestoreStagedPaths(entries: seq<Entry>, ghost before: Files) returns (restored: bool)
      requires trash.fs.files == AfterStaging(before, entries) && WereMoved(before, entries)
      modifies trash.fs`clock, trash.fs`files
      ensures restored ==> IsPutBack(before, trash.fs.files, IsCleanStaging(before, entries))
      ensures !restored && !trash.refusesOverwrite && GoToTrash(entries) ==> trash.fs.FailsBetween(old(trash.fs.clock), trash.fs.clock)
      ensures old(trash.fs.clock) <= trash.fs.clock
    {
      var i := |entries|;
      assert entries[..i] == entries;
      StagingCount(before, entries);
      ghost var goToTrash := !trash.refusesOverwrite && GoToTrash(entries);
      if goToTrash {
        TrashedAreThere(before, entries);
      }
      while i > 0
        invariant 0 <= i <= |entries|
        invariant |trash.fs.files| <= |AfterStaging(before, entries)| && old(trash.fs.clock) <= trash.fs.clock
        invariant goToTrash ==> forall k :: 0 <= k < i ==> entries[k].trashed in trash.fs.files
        invariant IsCleanStaging(before, entries) ==>
                    trash.fs.files == AfterStaging(before, entries[..i]) && IsCleanStaging(before, entries[..i]) && WereMoved(before, entries[..i])
      {
        i := i - 1;
        ghost var now := trash.fs.files;
        if IsCleanStaging(before, entries) {
          OneIsBack(before, entries, i, now);
        }
        assert entries[i] in entries;
        var ok := trash.RestoreFromTrash(entries[i].trashed, entries[i].original);
        if !ok {
          return false;
        }
        if goToTrash {
          OthersAreStillThere(entries, i, now);
        }
        RenamedCount(now, entries[i].trashed, entries[i].original);
      }
      return true;
    }

    /** A stored path as a file below the library root, if it is there. */
    method ResolveManagedSourcePathIfPresent(managedPath: Text) returns (ok: bool, path: Option<Path>)
      modifies trash.fs`clock
      ensures path.Some? ==> ok && path.value == SourceOf(managedPath)
      ensures ok <==> !trash.fs.fails(old(trash.fs.clock)) && IsSafeRelative(pathOf(managedPath))
      ensures old(trash.fs.clock) <= trash.fs.clock
      ensures !ok && IsSafeRelative(pathOf(managedPath)) ==> trash.fs.FailsBetween(old(trash.fs.clock), trash.fs.clock)
      ensures ok ==> (path.Some? <==> SourceOf(managedPath) in trash.fs.files)
    {
      var resolved := trash.fs.Attempt();
      if !resolved || !IsSafeRelative(pathOf(managedPath)) {
        return false, None;
      }
      return true, if SourceOf(managedPath) in trash.fs.files then Some(SourceOf(managedPath)) else None;
    }

    function SourceOf(managedPath: Text): Path {
      trash.libraryRoot + pathOf(managedPath)
    }

    /** The files of a book that are where the catalogue says. */
    function PresentFiles(row: BookRow, files: Files): set<Path> {
      (set p | p in files && p == SourceOf(row.managedPath))
      + (if row.coverPath.Some? then set p | p in files && p == SourceOf(row.coverPath.value) else {})
    }

    /** No file of the book lies in Trash, and moving them there overwrites nothing. */
    ghost predicate IsOrderly(row: BookRow, files: Files) {
      forall p :: p in PresentFiles(row, files) ==> !(TrashRoot() <= p) && trash.IsSafeToMove(files, p)
    }

    function TrashRoot(): Path {
      trash.libraryRoot + ["Trash"]
    }

    /** Moves one file, if it is present, and notes where it went. */
    method Stage(source: Option<Path>, entries: seq<Entry>, ghost before: Files) returns (ok: bool, staged: seq<Entry>)
      requires trash.fs.files == AfterStaging(before, entries) && WereMoved(before, entries)
      modifies trash.fs`clock, trash.fs`files
      ensures trash.fs.files == AfterStaging(before, staged) && WereMoved(before, staged)
      ensures !ok ==> staged == entries && source.Some?
      ensures ok ==> if source.None? then staged == entries
                     else |staged| == |entries| + 1 && staged[..|entries|] == entries && staged[|entries|].original == source.value
      ensures trash.IsReliable() && source.Some? && source.value in AfterStaging(before, entries) && trash.TrashDestination(source.value).Some? ==>
                ok && trash.TrashDestination(source.value) == Some(staged[|entries|].trashed)
      ensures ok && source.Some? && IsCleanStaging(before, entries) && trash.IsSafeToMove(AfterStaging(before, entries), source.value) ==>
                IsCleanStaging(before, staged)
      ensures ok && source.Some? ==> source.value in AfterStaging(before, entries) && TrashRoot() <= staged[|entries|].trashed
      ensures ok && source.Some? && !trash.refusesOverwrite && trash.IsSafeToMove(AfterStaging(before, entries), source.value) ==>
                trash.TrashDestination(source.value) == Some(staged[|entries|].trashed)
      ensures old(trash.fs.clock) <= trash.fs.clock
      ensures !ok && source.value in AfterStaging(before, entries) && trash.TrashDestination(source.value).Some? ==>
                trash.fs.FailsBetween(old(trash.fs.clock), trash.fs.clock)
                || trash.HasNoPlace(AfterStaging(before, entries), trash.TrashDestination(source.value).value)
    {
      if source.None? {
        return true, entries;
      }
      var destination := trash.MoveToTrash(source.value);
      if destination.None? {
        return false, entries;
      }
      staged := entries + [Entry(source.value, destination.value)];
      assert staged[..|entries|] == entries;
      ok := true;
      DestinationIsInTrash(source.value, destination.value, AfterStaging(before, entries));
    }

    lemma DestinationIsInTrash(source: Path, destination: Path, files: Files)
      requires trash.TrashDestination(source).Some? && IsFirstFree(files, trash.TrashDestination(source).value, destination)
      ensures TrashRoot() <= destination
      ensures trash.TrashDestination(source).value !in files ==> destination == trash.TrashDestination(source).value
      ensures destination != source
    {
      var template := trash.TrashDestination(source).value;
      var i :| 0 <= i < 999 && destination == CollisionCandidate(template, i)
               && forall k :: 0 <= k < i ==> CollisionCandidate(template, k) in files;
      assert i > 0 ==> CollisionCandidate(template, 0) in files;
      CandidatesDiffer(template, i, i);
      assert |template| > |TrashRoot()| && template[..|TrashRoot()|] == TrashRoot();
      assert TrashRoot() <= Parent(template);
      assert |destination| == |source| + 1;
    }

    /** Entries moved from outside Trash into it, none over another file. */
    ghost predicate AreProper(files: Files, entries: seq<Entry>) {
      && IsCleanStaging(files, entries)
      && forall e :: e in entries ==> !(TrashRoot() <= e.original) && TrashRoot() <= e.trashed
    }

    /** Every staged file has left its place and is in Trash with its content. */
    ghost predicate HaveArrived(before: Files, entries: seq<Entry>, after: Files) {
      forall e :: e in entries ==>
        e.original in before && e.original !in after && e.trashed in after && after[e.trashed] == before[e.original]
    }

    /** A file is where it was, or it is one of the trashed ones. */
    ghost predicate NothingInvented(before: Files, entries: seq<Entry>, after: Files) {
      forall p :: p in after ==> (p in before && after[p] == before[p]) || exists e :: e in entries && e.trashed == p
    }

    /** A file stays where it was, unless it is one of the staged ones. */
    ghost predicate NothingLost(before: Files, entries: seq<Entry>, after: Files) {
      forall p :: p in before ==> (p in after && after[p] == before[p]) || exists e :: e in entries && e.original == p
    }

    ghost predicate IsStep(mid: Files, last: Entry, after: Files) {
      && last.original in mid && last.trashed !in mid && after == Renamed(mid, last.original, last.trashed)
      && !(TrashRoot() <= last.original) && TrashRoot() <= last.trashed
    }

    lemma OneMoreInvented(before: Files, init: seq<Entry>, mid: Files, last: Entry, after: Files)
      requires NothingInvented(before, init, mid) && IsStep(mid, last, after)
      ensures NothingInvented(before, init + [last], after)
    {
    }

    lemma OneMoreLost(before: Files, init: seq<Entry>, mid: Files, last: Entry, after: Files)
      requires NothingLost(before, init, mid) && IsStep(mid, last, after)
      ensures NothingLost(before, init + [last], after)
    {
    }

    lemma OneMoreArrived(before: Files, init: seq<Entry>, mid: Files, last: Entry, after: Files)
      requires HaveArrived(before, init, mid) && NothingInvented(before, init, mid) && IsStep(mid, last, after)
      requires forall e :: e in init ==> TrashRoot() <= e.trashed && !(TrashRoot() <= e.original)
      ensures HaveArrived(before, init + [last], after)
    {
    }

    lemma {:induction false} StagingMeaning(before: Files, entries: seq<Entry>)
      requires AreProper(before, entries)
      ensures var after := AfterStaging(before, entries);
              HaveArrived(before, entries, after) && NothingInvented(before, entries, after) && NothingLost(before, entries, after)
    {
      if entries != [] {
        var init, last := entries[..|entries| - 1], entries[|entries| - 1];
        var mid, after := AfterStaging(before, init), AfterStaging(before, entries);
        assert entries == init + [last];
        StagingMeaning(before, init);
        assert IsStep(mid, last, after);
        OneMoreInvented(before, init, mid, last, after);
        OneMoreLost(before, init, mid, last, after);
        OneMoreArrived(before, init, mid, last, after);
      }
    }

    /** Every entry went to the place that mirrors its own below Trash, and had been outside it. */
    ghost predicate ArePlanned(entries: seq<Entry>) {
      forall e :: e in entries ==> trash.TrashDestination(e.original) == Some(e.trashed) && !(TrashRoot() <= e.original)
    }

    lemma PlannedAreInTrash(entries: seq<Entry>)
      requires ArePlanned(entries)
      ensures forall e :: e in entries ==> e.original != [] && TrashRoot() <= e.trashed
    {
      forall e | e in entries ensures e.original != [] && TrashRoot() <= e.trashed {
        assert e.trashed[..|TrashRoot()|] == TrashRoot();
      }
    }

    lemma {:induction false} OriginalsAreGone(before: Files, entries: seq<Entry>)
      requires WereMoved(before, entries)
      requires forall e :: e in entries ==> !(TrashRoot() <= e.original) && TrashRoot() <= e.trashed
      ensures forall e :: e in entries ==> e.original !in AfterStaging(before, entries)
    {
      if entries != [] {
        var init, last := entries[..|entries| - 1], entries[|entries| - 1];
        assert entries == init + [last];
        OriginalsAreGone(before, init);
      }
    }

    lemma {:induction false} OtherPlacesStay(before: Files, entries: seq<Entry>, p: Path)
      requires WereMoved(before, entries) && forall e :: e in entries ==> e.original != p && e.trashed != p
      ensures p in AfterStaging(before, entries) <==> p in before
    {
      if entries != [] {
        var init, last := entries[..|entries| - 1], entries[|entries| - 1];
        assert entries == init + [last];
        OtherPlacesStay(before, init, p);
      }
    }

    /** Planned moves overwrite nothing exactly if all their destinations were free beforehand. */
    lemma {:induction false} PlannedAreCleanIff(before: Files, entries: seq<Entry>)
      requires WereMoved(before, entries) && ArePlanned(entries)
      ensures GoToTrash(entries)
      ensures IsCleanStaging(before, entries) <==> forall e :: e in entries ==> e.trashed !in before
    {
      PlannedAreInTrash(entries);
      if entries != [] {
        var init, last := entries[..|entries| - 1], entries[|entries| - 1];
        assert entries == init + [last];
        PlannedAreCleanIff(before, init);
        OriginalsAreGone(before, init);
        forall e | e in init ensures e.trashed != last.trashed && e.original != last.trashed {
          DestinationsDiffer(e.original, last.original);
        }
        OtherPlacesStay(before, init, last.trashed);
      }
    }

    /** A present file outside Trash that has a place there. */
    predicate HasDestination(files: Files, source: Option<Path>) {
      source.Some? ==> source.value in files && !(TrashRoot() <= source.value) && trash.TrashDestination(source.value).Some?
    }

    predicate IsPresentFile(files: Files, source: Option<Path>) {
      source.Some? ==> source.value in files && trash.TrashDestination(source.value).Some?
    }

    /** This file has not been staged, and there is no name left for it in Trash. */
    ghost predicate IsOutOfPlaces(before: Files, source: Option<Path>, entries: seq<Entry>) {
      && source.Some? && trash.TrashDestination(source.value).Some?
      && (forall e :: e in entries ==> e.original != source.value)
      && trash.HasNoPlace(AfterStaging(before, entries), trash.TrashDestination(source.value).value)
    }

    lemma OthersLeaveNoPlace(before: Files, source: Option<Path>, entries: seq<Entry>)
      requires source.Some? && trash.TrashDestination(source.value).Some?
      requires trash.HasNoPlace(AfterStaging(before, entries), trash.TrashDestination(source.value).value)
      requires entries == [] || (|entries| == 1 && entries[0].original != source.value)
      ensures IsOutOfPlaces(before, source, entries)
    {
    }

    /** Why staging present files may give up: an operation failed, or one of them has no place in Trash. */
    ghost predicate GivesUpRightly(before: Files, book: Option<Path>, cover: Option<Path>, entries: seq<Entry>, failed: bool) {
      IsPresentFile(before, book) && IsPresentFile(before, cover) && (book.Some? ==> cover != book) ==>
        failed || IsOutOfPlaces(before, book, entries) || IsOutOfPlaces(before, cover, entries)
    }

    predicate AreOriginals(entries: seq<Entry>, book: Option<Path>, cover: Option<Path>) {
      && (forall e :: e in entries ==> Some(e.original) == book || Some(e.original) == cover)
      && (book.Some? ==> exists e :: e in entries && e.original == book.value)
      && (cover.Some? ==> exists e :: e in entries && e.original == cover.value)
    }

    /**
      * The book, then the cover; a cover that cannot be moved brings the book back. With reliable
      * moves that happens only if book and cover are the same file.
      */
    method StageArtifacts(book: Option<Path>, cover: Option<Path>)
      returns (ok: bool, restored: bool, entries: seq<Entry>)
      modifies trash.fs`clock, trash.fs`files
      ensures WereMoved(old(trash.fs.files), entries)
      ensures ok ==> trash.fs.files == AfterStaging(old(trash.fs.files), entries)
      ensures ok ==> |entries| == (if book.Some? then 1 else 0) + (if cover.Some? then 1 else 0)
      ensures ok ==> (book.Some? ==> entries[0].original == book.value)
                     && (cover.Some? ==> entries[|entries| - 1].original == cover.value)
      ensures ok && MayBeStaged(old(trash.fs.files), book) && MayBeStaged(old(trash.fs.files), cover) ==>
                AreProper(old(trash.fs.files), entries)
      ensures !ok && restored && MayBeStaged(old(trash.fs.files), book) ==> trash.fs.files == old(trash.fs.files)
      ensures !ok && restored ==> IsPutBack(old(trash.fs.files), trash.fs.files, IsCleanStaging(old(trash.fs.files), entries))
      ensures trash.IsReliable() && HasDestination(old(trash.fs.files), book) && HasDestination(old(trash.fs.files), cover) ==>
                (ok || restored) && ArePlanned(entries) && AreOriginals(entries, book, cover)
      ensures old(trash.fs.clock) <= trash.fs.clock
      ensures !ok ==> GivesUpRightly(old(trash.fs.files), book, cover, entries, trash.fs.FailsBetween(old(trash.fs.clock), trash.fs.clock))
    {
      ghost var before := trash.fs.files;
      entries := [];
      ok, entries := Stage(book, entries, before);
      if !ok {
        if IsPresentFile(before, book) && !trash.fs.FailsBetween(old(trash.fs.clock), trash.fs.clock) {
          OthersLeaveNoPlace(before, book, entries);
        }
        return false, true, entries;
      }
      ghost var first := entries;
      ok, entries := Stage(cover, entries, before);
      if !ok {
        if IsPresentFile(before, cover) && (book.Some? ==> cover != book) && !trash.fs.FailsBetween(old(trash.fs.clock), trash.fs.clock) {
          OthersLeaveNoPlace(before, cover, entries);
        }
        if trash.IsReliable() && HasDestination(before, book) && HasDestination(before, cover) {
          OnlyTheSameFileFails(before, book, cover, entries);
        }
        restored := RestoreStagedPaths(entries, before);
        return;
      }
      restored := true;
      if cover.Some? && book.Some? && MayBeStaged(before, book) && MayBeStaged(before, cover) {
        SecondIsSafe(before, first[0], cover.value);
      }
      assert entries == first || entries == first + [entries[|entries| - 1]];
      if trash.IsReliable() && HasDestination(before, book) && HasDestination(before, cover) {
        BothArePlanned(before, book, cover, entries);
      }
    }

    lemma BothArePlanned(before: Files, book: Option<Path>, cover: Option<Path>, entries: seq<Entry>)
      requires HasDestination(before, book) && HasDestination(before, cover)
      requires |entries| == (if book.Some? then 1 else 0) + (if cover.Some? then 1 else 0)
      requires book.Some? ==> entries[0] == Entry(book.value, trash.TrashDestination(book.value).value)
      requires cover.Some? ==> entries[|entries| - 1] == Entry(cover.value, trash.TrashDestination(cover.value).value)
      ensures ArePlanned(entries) && AreOriginals(entries, book, cover)
    {
      forall e | e in entries ensures Some(e.original) == book || Some(e.original) == cover {
        var i :| 0 <= i < |entries| && entries[i] == e;
        assert i == 0 || i == |entries| - 1;
      }
      assert book.Some? ==> entries[0] in entries;
      assert cover.Some? ==> entries[|entries| - 1] in entries;
    }

    lemma OnlyTheSameFileFails(before: Files, book: Option<Path>, cover: Option<Path>, entries: seq<Entry>)
      requires WereMoved(before, entries) && HasDestination(before, book) && HasDestination(before, cover)
      requires entries == if book.None? then [] else [Entry(book.value, trash.TrashDestination(book.value).value)]
      requires cover.Some? && cover.value !in AfterStaging(before, entries)
      ensures cover == book && ArePlanned(entries) && AreOriginals(entries, book, cover) && GoToTrash(entries)
    {
      assert book.Some? ==> entries[0] in entries && entries[..0] == [];
      PlannedAreCleanIff(before, entries);
    }

    predicate MayBeStaged(files: Files, source: Option<Path>) {
      source.Some? ==> !(TrashRoot() <= source.value) && trash.IsSafeToMove(files, source.value)
    }

    /** The first file in Trash is not where the second one would go. */
    lemma SecondIsSafe(before: Files, first: Entry, source: Path)
      requires MayBeStaged(before, Some(first.original)) && MayBeStaged(before, Some(source))
      requires IsCleanStaging(before, [first]) && source in AfterStaging(before, [first])
      requires !trash.refusesOverwrite ==> trash.TrashDestination(first.original) == Some(first.trashed)
      ensures trash.IsSafeToMove(AfterStaging(before, [first]), source)
    {
      assert [first][..0] == [];
      assert AfterStaging(before, [first]) == Renamed(before, first.original, first.trashed);
      DestinationsDiffer(source, first.original);
    }

    lemma DestinationsDiffer(a: Path, b: Path)
      ensures a != b && trash.TrashDestination(a).Some? ==> trash.TrashDestination(a) != trash.TrashDestination(b)
    {
      var n := |trash.libraryRoot|;
      if trash.TrashDestination(a).Some? {
        assert a == trash.libraryRoot + trash.TrashDestination(a).value[n + 1..];
      }
      if trash.TrashDestination(b).Some? {
        assert b == trash.libraryRoot + trash.TrashDestination(b).value[n + 1..];
      }
    }

    /** The recycle bin takes the files, or fails after having taken some of them. */
    method MoveToRecycleBin(paths: seq<Path>) returns (ok: bool)
      modifies trash.fs`clock, trash.fs`removals, trash.fs`files
      ensures IsPartOf(trash.fs.files, old(trash.fs.files))
      ensures forall p :: p in old(trash.fs.files) && p !in trash.fs.files ==> p in paths
      ensures ok ==> forall i :: 0 <= i < |paths| ==> paths[i] !in trash.fs.files
      ensures old(trash.fs.clock) <= trash.fs.clock && old(trash.fs.removals) <= trash.fs.removals
      ensures !ok ==> trash.fs.FailsBetween(old(trash.fs.clock), trash.fs.clock)
                      || !trash.fs.RemovalsWorked(old(trash.fs.removals), trash.fs.removals)
    {
      ok := trash.fs.Attempt();
      for i := 0 to |paths|
        invariant IsPartOf(trash.fs.files, old(trash.fs.files))
        invariant forall p :: p in old(trash.fs.files) && p !in trash.fs.files ==> p in paths
        invariant ok ==> forall k :: 0 <= k < i ==> paths[k] !in trash.fs.files
        invariant old(trash.fs.clock) <= trash.fs.clock && old(trash.fs.removals) <= trash.fs.removals
        invariant !ok ==> trash.fs.FailsBetween(old(trash.fs.clock), trash.fs.clock)
                          || !trash.fs.RemovalsWorked(old(trash.fs.removals), trash.fs.removals)
      {
        assert !trash.fs.RemovalsWorked(old(trash.fs.removals), trash.fs.removals + 1)
            <== trash.fs.stuck(trash.fs.removals) || !trash.fs.RemovalsWorked(old(trash.fs.removals), trash.fs.removals);
        trash.fs.RemoveFile(paths[i]);
        ok := ok && paths[i] !in trash.fs.files;
      }
    }

    function TrashedPaths(entries: seq<Entry>): (paths: seq<Path>)
      ensures |paths| == |entries| && forall i :: 0 <= i < |paths| ==> paths[i] == entries[i].trashed
    {
      seq(|entries|, i requires 0 <= i < |entries| => entries[i].trashed)
    }

    /** What happens to the staged files once the row is gone. */
    method OfferToRecycleBin(entries: seq<Entry>, isIncomplete: bool) returns (o: Outcome)
      modifies trash.fs`clock, trash.fs`removals, trash.fs`files
      ensures IsExplained(o, isIncomplete, entries, trash.fs.files, BinFails(old(trash.fs.clock), old(trash.fs.removals)))
      ensures IsPartOf(trash.fs.files, old(trash.fs.files))
      ensures forall p :: p in old(trash.fs.files) && p !in trash.fs.files ==> exists e :: e in entries && e.trashed == p
      ensures !o.toRecycleBin && !o.hasOrphanedFiles ==>
                forall e :: e in entries && e.trashed in old(trash.fs.files) ==> e.trashed in trash.fs.files
      ensures old(trash.fs.clock) <= trash.fs.clock && old(trash.fs.removals) <= trash.fs.removals
    {
      if !hasRecycleBin || entries == [] {
        return Trashed(false, isIncomplete);
      }
      var paths := TrashedPaths(entries);
      assert forall p :: p in paths ==> exists e :: e in entries && e.trashed == p by {
        forall p | p in paths ensures exists e :: e in entries && e.trashed == p {
          var i :| 0 <= i < |paths| && paths[i] == p;
          assert entries[i] in entries;
        }
      }
      var ok := MoveToRecycleBin(paths);
      if ok {
        forall e | e in entries ensures e.trashed !in trash.fs.files {
          var i :| 0 <= i < |entries| && entries[i] == e;
          assert paths[i] == e.trashed;
        }
        return Trashed(true, isIncomplete);
      }
      var isLost := AnyIsMissing(paths);
      if !isLost {
        forall e | e in entries ensures e.trashed in trash.fs.files {
          var i :| 0 <= i < |entries| && entries[i] == e;
          assert paths[i] == e.trashed;
        }
      }
      return Trashed(false, isIncomplete || isLost);
    }

    method AnyIsMissing(paths: seq<Path>) returns (isMissing: bool)
      ensures isMissing <==> exists i :: 0 <= i < |paths| && paths[i] !in trash.fs.files
    {
      isMissing := false;
      for i := 0 to |paths|
        invariant !isMissing && forall k :: 0 <= k < i ==> paths[k] in trash.fs.files
      {
        if paths[i] !in trash.fs.files {
          return true;
        }
      }
    }

    /** The staged entries are exactly the files of the book that are present. */
    ghost predicate CoverPresentFiles(row: BookRow, files: Files, entries: seq<Entry>) {
      forall p :: p in PresentFiles(row, files) <==> exists e :: e in entries && e.original == p
    }

    predicate NamesMissingFile(row: BookRow, files: Files) {
      SourceOf(row.managedPath) !in files || (row.coverPath.Some? && SourceOf(row.coverPath.value) !in files)
    }

    ghost predicate LiesOutsideTrash(row: BookRow, files: Files) {
      forall p :: p in PresentFiles(row, files) ==> !(TrashRoot() <= p)
    }

    /** No file lies where a file of the book would go in Trash. */
    ghost predicate DestinationsAreFree(row: BookRow, files: Files) {
      forall p :: p in PresentFiles(row, files) ==> trash.IsSafeToMove(files, p)
    }

    /** The row names a book file, and its paths pass the safety check. */
    predicate HasSafePaths(row: BookRow) {
      && row.managedPath != [] && IsSafeRelative(pathOf(row.managedPath))
      && (row.coverPath.Some? ==> IsSafeRelative(pathOf(row.coverPath.value)))
    }

    /** The row names a book file and another file as its cover, if any, by safe paths. */
    predicate CanBeTrashed(row: BookRow) {
      HasSafePaths(row) && (row.coverPath.Some? ==> SourceOf(row.coverPath.value) != SourceOf(row.managedPath))
    }

    /** A present file of the book found all names in Trash taken, by an operation that refuses to overwrite. */
    ghost predicate LacksPlace(row: BookRow, before: Files, entries: seq<Entry>) {
      exists p :: p in PresentFiles(row, before) && IsOutOfPlaces(before, Some(p), entries)
    }

    lemma SafePathsHaveDestinations(managedPath: Text)
      requires IsSafeRelative(pathOf(managedPath))
      ensures trash.TrashDestination(SourceOf(managedPath)).Some?
    {
      assert SourceOf(managedPath)[|trash.libraryRoot|..] == pathOf(managedPath);
    }

    /** Reliable moves of a row whose files can be told to be apart from Trash. */
    ghost predicate IsPredictable(row: BookRow, files: Files) {
      trash.IsReliable() && HasSafePaths(row) && LiesOutsideTrash(row, files)
    }

    /** Staging exactly the present files overwrites nothing exactly if their destinations are free. */
    lemma StagingIsCleanIff(row: BookRow, files: Files, entries: seq<Entry>)
      requires trash.IsReliable() && WereMoved(files, entries) && ArePlanned(entries) && CoverPresentFiles(row, files, entries)
      ensures IsCleanStaging(files, entries) <==> DestinationsAreFree(row, files)
      ensures GoToTrash(entries)
    {
      PlannedAreCleanIff(files, entries);
      if DestinationsAreFree(row, files) {
        forall e | e in entries ensures e.trashed !in files {
          assert e.original in PresentFiles(row, files);
        }
      }
      if IsCleanStaging(files, entries) {
        forall p | p in PresentFiles(row, files) ensures trash.IsSafeToMove(files, p) {
          var e :| e in entries && e.original == p;
        }
      }
    }

    /** The book file and the cover of a row, where they are present. */
    method FindFiles(row: BookRow) returns (ok: bool, book: Option<Path>, cover: Option<Path>)
      modifies trash.fs`clock
      ensures ok ==> AreFound(row, trash.fs.files, book, cover)
      ensures old(trash.fs.clock) <= trash.fs.clock
      ensures !ok && HasSafePaths(row) ==> trash.fs.FailsBetween(old(trash.fs.clock), trash.fs.clock)
    {
      cover := None;
      ok, book := ResolveManagedSourcePathIfPresent(row.managedPath);
      if ok && row.coverPath.Some? {
        ok, cover := ResolveManagedSourcePathIfPresent(row.coverPath.value);
      }
    }

    /** Files that are found are those of the book, and safe paths give them places in Trash. */
    lemma FoundFilesAreIn(row: BookRow, files: Files, book: Option<Path>, cover: Option<Path>)
      requires AreFound(row, files, book, cover)
      ensures book.Some? ==> book.value in PresentFiles(row, files)
      ensures cover.Some? ==> cover.value in PresentFiles(row, files)
      ensures HasSafePaths(row) ==> IsPresentFile(files, book) && IsPresentFile(files, cover)
      ensures IsPredictable(row, files) ==> HasDestination(files, book) && HasDestination(files, cover)
    {
      if HasSafePaths(row) {
        SafePathsHaveDestinations(row.managedPath);
        if row.coverPath.Some? {
          SafePathsHaveDestinations(row.coverPath.value);
        }
      }
    }

    /** Looks the files up and stages them; `isIncomplete` says that the catalogue names a missing one. */
    method StageBook(row: BookRow) returns (ok: bool, restored: bool, isIncomplete: bool, entries: seq<Entry>)
      modifies trash.fs`clock, trash.fs`files
      ensures ok ==> trash.fs.files == AfterStaging(old(trash.fs.files), entries) && CoverPresentFiles(row, old(trash.fs.files), entries)
      ensures ok ==> isIncomplete == NamesMissingFile(row, old(trash.fs.files))
      ensures ok && IsOrderly(row, old(trash.fs.files)) ==> AreProper(old(trash.fs.files), entries)
      ensures !ok && restored && IsOrderly(row, old(trash.fs.files)) ==> trash.fs.files == old(trash.fs.files)
      ensures WereMoved(old(trash.fs.files), entries)
      ensures !ok && restored ==> IsPutBack(old(trash.fs.files), trash.fs.files, IsCleanStaging(old(trash.fs.files), entries))
      ensures IsPredictable(row, old(trash.fs.files)) ==>
                (ok || restored) && GoToTrash(entries)
                && (IsCleanStaging(old(trash.fs.files), entries) <==> DestinationsAreFree(row, old(trash.fs.files)))
      ensures old(trash.fs.clock) <= trash.fs.clock
      ensures !ok && CanBeTrashed(row) ==>
                trash.fs.FailsBetween(old(trash.fs.clock), trash.fs.clock) || LacksPlace(row, old(trash.fs.files), entries)
    {
      restored, isIncomplete, entries := true, false, [];
      var book, cover;
      ok, book, cover := FindFiles(row);
      if !ok {
        return;
      }
      isIncomplete := book.None? || (row.coverPath.Some? && cover.None?);
      FoundFilesAreIn(row, trash.fs.files, book, cover);
      ok, restored, entries := StageArtifacts(book, cover);
      if ok {
        EntriesArePresentFiles(row, old(trash.fs.files), book, cover, entries);
      }
      if IsPredictable(row, old(trash.fs.files)) {
        OriginalsArePresentFiles(row, old(trash.fs.files), book, cover, entries);
        StagingIsCleanIff(row, old(trash.fs.files), entries);
      }
    }

    predicate AreFound(row: BookRow, files: Files, book: Option<Path>, cover: Option<Path>) {
      && book == (if SourceOf(row.managedPath) in files then Some(SourceOf(row.managedPath)) else None)
      && cover == if row.coverPath.Some? && SourceOf(row.coverPath.value) in files then Some(SourceOf(row.coverPath.value)) else None
    }

    lemma OriginalsArePresentFiles(row: BookRow, files: Files, book: Option<Path>, cover: Option<Path>, entries: seq<Entry>)
      requires AreFound(row, files, book, cover) && AreOriginals(entries, book, cover)
      ensures CoverPresentFiles(row, files, entries)
    {
    }

    lemma EntriesArePresentFiles(row: BookRow, files: Files, book: Option<Path>, cover: Option<Path>, entries: seq<Entry>)
      requires AreFound(row, files, book, cover)
      requires |entries| == (if book.Some? then 1 else 0) + (if cover.Some? then 1 else 0)
      requires book.Some? ==> entries[0].original == book.value
      requires cover.Some? ==> entries[|entries| - 1].original == cover.value
      ensures CoverPresentFiles(row, files, entries)
    {
    }

    /** The files of a trashed book: none at its old place, and a copy in Trash if nothing was orphaned. */
    ghost predicate IsTrashed(row: BookRow, before: Files, after: Files, o: Outcome)
      requires o.Trashed?
    {
      && (forall p :: p in PresentFiles(row, before) ==> p !in after)
      && (!o.toRecycleBin && !o.hasOrphanedFiles ==>
            forall p :: p in PresentFiles(row, before) ==> exists q :: TrashRoot() <= q && q in after && after[q] == before[p])
      && (forall p :: p in before && p !in PresentFiles(row, before) ==> p in after && after[p] == before[p])
    }

    lemma TrashedMeaning(row: BookRow, before: Files, entries: seq<Entry>, after: Files, o: Outcome)
      requires o.Trashed? && AreProper(before, entries) && CoverPresentFiles(row, before, entries)
      requires var staged := AfterStaging(before, entries);
               && IsPartOf(after, staged)
               && (forall p :: p in staged && p !in after ==> exists e :: e in entries && e.trashed == p)
               && (!o.toRecycleBin && !o.hasOrphanedFiles ==>
                     forall e :: e in entries && e.trashed in staged ==> e.trashed in after)
      ensures IsTrashed(row, before, after, o)
    {
      StagingMeaning(before, entries);
      forall p | p in PresentFiles(row, before) ensures p !in after {
        var e :| e in entries && e.original == p;
      }
      if !o.toRecycleBin && !o.hasOrphanedFiles {
        forall p | p in PresentFiles(row, before) ensures exists q :: TrashRoot() <= q && q in after && after[q] == before[p] {
          var e :| e in entries && e.original == p;
          assert e.trashed in after;
        }
      }
      forall p | p in before && p !in PresentFiles(row, before) ensures p in after && after[p] == before[p] {
        NotATrashedPlace(before, entries, p);
      }
    }

    /** A file that was there all along is at none of the places where something was moved to. */
    lemma {:induction false} NotATrashedPlace(before: Files, entries: seq<Entry>, p: Path)
      requires AreProper(before, entries) && p in before && forall e :: e in entries ==> e.original != p
      ensures forall e :: e in entries ==> e.trashed != p
      ensures p in AfterStaging(before, entries)
    {
      if entries != [] {
        var init := entries[..|entries| - 1];
        assert entries == init + [entries[|entries| - 1]];
        NotATrashedPlace(before, init, p);
      }
    }

    /** The outcome tells what became of the staged files: taken by the recycle bin, kept in Trash, or partly lost. */
    ghost predicate IsExplained(o: Outcome, isIncomplete: bool, entries: seq<Entry>, after: Files, binFailed: bool) {
      && o.Trashed?
      && (o.toRecycleBin ==> hasRecycleBin && entries != [] && forall e :: e in entries ==> e.trashed !in after)
      && (!o.toRecycleBin ==> !hasRecycleBin || entries == [] || binFailed)
      && (o.hasOrphanedFiles <==> isIncomplete || (hasRecycleBin && !o.toRecycleBin && exists e :: e in entries && e.trashed !in after))
    }

    /** An operation or a best-effort removal did not do its work. */
    ghost predicate BinFails(operations: nat, removals: nat)
      reads trash.fs
    {
      trash.fs.FailsBetween(operations, trash.fs.clock) || !trash.fs.RemovalsWorked(removals, trash.fs.removals)
    }

    /** The recycle bin gets its offer, and the files of the book are where they should be. */
    method FinishTrashing(row: BookRow, entries: seq<Entry>, isIncomplete: bool, ghost before: Files) returns (o: Outcome)
      requires trash.fs.files == AfterStaging(before, entries) && CoverPresentFiles(row, before, entries)
      modifies trash.fs`clock, trash.fs`removals, trash.fs`files
      ensures IsExplained(o, isIncomplete, entries, trash.fs.files, BinFails(old(trash.fs.clock), old(trash.fs.removals)))
      ensures old(trash.fs.clock) <= trash.fs.clock && old(trash.fs.removals) <= trash.fs.removals
      ensures AreProper(before, entries) ==> IsTrashed(row, before, trash.fs.files, o)
    {
      o := OfferToRecycleBin(entries, isIncomplete);
      if AreProper(before, entries) {
        TrashedMeaning(row, before, entries, trash.fs.files, o);
      }
    }

    /** Staging and then the row; if either fails, the staged files are put back. */
    method StageAndRemove(id: BookId, row: BookRow) returns (done: bool, restored: bool, isIncomplete: bool, entries: seq<Entry>)
      requires IsReady() && id in db.tables.books && db.tables.books[id] == row
      modifies db`clock, db`tables, db`saved, trash.fs`clock, trash.fs`files
      ensures db.tables == if done then CatalogueRuns.Removed(db.tokens, old(db.tables), id) else old(db.tables)
      ensures done ==> trash.fs.files == AfterStaging(old(trash.fs.files), entries) && CoverPresentFiles(row, old(trash.fs.files), entries)
      ensures done ==> isIncomplete == NamesMissingFile(row, old(trash.fs.files)) && !db.fails(old(db.clock))
      ensures done && IsOrderly(row, old(trash.fs.files)) ==> AreProper(old(trash.fs.files), entries)
      ensures !done && restored ==> IsPutBack(old(trash.fs.files), trash.fs.files, IsCleanStaging(old(trash.fs.files), entries))
      ensures !done && restored && IsOrderly(row, old(trash.fs.files)) ==> trash.fs.files == old(trash.fs.files)
      ensures !done && IsPredictable(row, old(trash.fs.files)) ==>
                restored && IsPutBack(old(trash.fs.files), trash.fs.files, DestinationsAreFree(row, old(trash.fs.files)))
      ensures old(db.clock) <= db.clock && old(trash.fs.clock) <= trash.fs.clock
      ensures !done && CanBeTrashed(row) ==>
                db.FailsBetween(old(db.clock), db.clock) || trash.fs.FailsBetween(old(trash.fs.clock), trash.fs.clock)
                || LacksPlace(row, old(trash.fs.files), entries)
    {
      ghost var before := trash.fs.files;
      done, restored, isIncomplete, entries := StageBook(row);
      if !done {
        return;
      }
      done := db.Remove(id);
      if !done {
        restored := RestoreStagedPaths(entries, before);
      }
    }

    /** The operation once the row has been read. */
    method MoveFoundBook(id: BookId, row: BookRow) returns (o: Outcome, ghost entries: seq<Entry>)
      requires IsReady() && id in db.tables.books && db.tables.books[id] == row
      modifies db`clock, db`tables, db`saved, trash.fs`clock, trash.fs`removals, trash.fs`files
      ensures !o.NotFound?
      ensures db.tables == if o.Trashed? then CatalogueRuns.Removed(db.tokens, old(db.tables), id) else old(db.tables)
      ensures o.Threw? && o.restored ==> IsPutBack(old(trash.fs.files), trash.fs.files, IsCleanStaging(old(trash.fs.files), entries))
      ensures o.Threw? && o.restored && IsOrderly(row, old(trash.fs.files)) ==> trash.fs.files == old(trash.fs.files)
      ensures o.Threw? && IsPredictable(row, old(trash.fs.files)) ==>
                o.restored && IsPutBack(old(trash.fs.files), trash.fs.files, DestinationsAreFree(row, old(trash.fs.files)))
      ensures o.Trashed? && IsOrderly(row, old(trash.fs.files)) ==> IsTrashed(row, old(trash.fs.files), trash.fs.files, o)
      ensures o.Trashed? ==> IsExplained(o, NamesMissingFile(row, old(trash.fs.files)), entries, trash.fs.files,
                                         BinFails(old(trash.fs.clock), old(trash.fs.removals)))
      ensures o.Trashed? ==> !db.fails(old(db.clock))
      ensures old(db.clock) <= db.clock && old(trash.fs.clock) <= trash.fs.clock
      ensures o.Threw? && CanBeTrashed(row) ==>
                db.FailsBetween(old(db.clock), db.clock) || trash.fs.FailsBetween(old(trash.fs.clock), trash.fs.clock)
                || LacksPlace(row, old(trash.fs.files), entries)
    {
      ghost var before := trash.fs.files;
      var done, restored, isIncomplete, staged := StageAndRemove(id, row);
      entries := staged;
      if !done {
        return Threw(restored), entries;
      }
      o := FinishTrashing(row, staged, isIncomplete, before);
    }

    /**
      * MoveBookToTrash. If it throws and its restores worked, rows and files are what they were
      * exactly if the staging overwrote nothing; with reliable moves that can be told beforehand.
      * If it returns a result, the row is gone and so is every file from its old place.
      */
    method MoveBookToTrash(id: BookId) returns (o: Outcome, ghost entries: seq<Entry>)
      requires IsReady()
      modifies db`clock, db`tables, db`saved, trash.fs`clock, trash.fs`removals, trash.fs`files
      ensures o.NotFound? ==> id !in old(db.tables.books)
      ensures !o.Trashed? ==> db.tables == old(db.tables)
      ensures o.NotFound? || id !in old(db.tables.books) ==> trash.fs.files == old(trash.fs.files)
      ensures o.Threw? && o.restored ==> IsPutBack(old(trash.fs.files), trash.fs.files, IsCleanStaging(old(trash.fs.files), entries))
      ensures o.Threw? && id in old(db.tables.books) && IsPredictable(old(db.tables.books)[id], old(trash.fs.files)) && !db.fails(old(db.clock)) ==>
                o.restored && IsPutBack(old(trash.fs.files), trash.fs.files, DestinationsAreFree(old(db.tables.books)[id], old(trash.fs.files)))
      ensures o.Threw? && o.restored && id in old(db.tables.books) && IsOrderly(old(db.tables.books)[id], old(trash.fs.files)) ==>
                trash.fs.files == old(trash.fs.files)
      ensures o.Trashed? ==> id in old(db.tables.books) && db.tables == CatalogueRuns.Removed(db.tokens, old(db.tables), id)
      ensures o.Trashed? && IsOrderly(old(db.tables.books)[id], old(trash.fs.files)) ==>
                IsTrashed(old(db.tables.books)[id], old(trash.fs.files), trash.fs.files, o)
      ensures o.Trashed? ==> IsExplained(o, NamesMissingFile(old(db.tables.books)[id], old(trash.fs.files)), entries, trash.fs.files,
                                         BinFails(old(trash.fs.clock), old(trash.fs.removals)))
      ensures o.Trashed? ==> !db.fails(old(db.clock) + 1)
      ensures o.Threw? && (id in old(db.tables.books) ==> CanBeTrashed(old(db.tables.books)[id])) ==>
                db.FailsBetween(old(db.clock), db.clock) || trash.fs.FailsBetween(old(trash.fs.clock), trash.fs.clock)
                || (id in old(db.tables.books) && LacksPlace(old(db.tables.books)[id], old(trash.fs.files), entries))
    {
      entries := [];
      var found := db.Execute();
      if !found {
        return Threw(true), [];
      }
      if id !in db.tables.books {
        return NotFound, [];
      }
      var row := db.tables.books[id];
      if row.managedPath == [] {
        return Threw(true), [];
      }
      o, entries := MoveFoundBook(id, row);
    }

    /**
      * Whenever a place in Trash is taken and moves overwrite, a removal whose first statement
      * fails loses a file, although every file operation works.
      */
    method MoveBookWithFailingRemoval(id: BookId) returns (o: Outcome)
      requires IsReady() && id in db.tables.books && !db.fails(db.clock) && db.fails(db.clock + 1)
      requires IsPredictable(db.tables.books[id], trash.fs.files) && !DestinationsAreFree(db.tables.books[id], trash.fs.files)
      modifies db`clock, db`tables, db`saved, trash.fs`clock, trash.fs`removals, trash.fs`files
      ensures o == Threw(true) && |trash.fs.files| < |old(trash.fs.files)|
    {
      ghost var entries;
      o, entries := MoveBookToTrash(id);
    }

    /** The files that imports write lie outside Trash. */
    lemma ManagedFilesAreOutsideTrash(text: Text, id: nat, format: BookFormat, encoding: StorageEncoding, extension: string)
      requires pathOf(text) == RelativeBookPath(id, format, encoding) || pathOf(text) == RelativeCoverPath(id, extension)
      ensures !(TrashRoot() <= SourceOf(text))
    {
      var n := |trash.libraryRoot|;
      assert SourceOf(text)[n] == "Objects" && TrashRoot()[n] == "Trash";
    }
  }

  /** A catalogue with one book. */
  function OneBook(): Tables {
    var row := BookRow([], NormalizeText([]), [], None, None, [], [0x62], None, []);
    Tables(map[1 := row], 2, Relation([], {}), Relation([], {}), Relation([], {}), {})
  }

  lemma OneBookIsCatalogue()
    ensures CatalogueRuns.IsCatalogue(OneBook())
    ensures 1 in OneBook().books && OneBook().books[1].managedPath != [] && OneBook().books[1].coverPath.None?
  {
  }

  function TwoFiles(place: Path, taken: Path): Files {
    map[place := [1], taken := [2]]
  }

  /** The default move operation does lose a file: a book whose place in Trash is taken. */
  method FailedRemovalLosesFile(tokens: Tokenizer, root: Path, name: string) returns (o: Outcome, after: Files)
    requires IsLawful(tokens) && name != ".." && name != "Trash"
    ensures o == Threw(true) && |after| < |TwoFiles(root + [name], root + ["Trash", name])|
  {
    var before := TwoFiles(root + [name], root + ["Trash", name]);
    var fs := new FileSystem(n => false, n => Untouched, n => false, n => {}, before);
    var trash := new TrashService(fs, root, false);
    var db := new Database(tokens, n => n == 1, OneBook());
    var facade := new TrashFacade(db, trash, false, text => [name]);
    OneBookIsCatalogue();
    BookPlaceIsTaken(facade, OneBook().books[1], before, root, name);
    o := facade.MoveBookWithFailingRemoval(1);
    after := fs.files;
  }

  lemma BookPlaceIsTaken(facade: TrashFacade, row: BookRow, files: Files, root: Path, name: string)
    requires facade.trash.libraryRoot == root && facade.trash.IsReliable()
    requires row.managedPath != [] && row.coverPath.None? && facade.pathOf(row.managedPath) == [name]
    requires name != ".." && name != "Trash" && files.Keys == {root + [name], root + ["Trash", name]}
    ensures facade.IsPredictable(row, files) && !facade.DestinationsAreFree(row, files)
  {
    var place, taken := root + [name], root + ["Trash", name];
    assert facade.SourceOf(row.managedPath) == place && place in facade.PresentFiles(row, files);
    assert place[|root|..] == [name] && place[|root|] == name;
    assert root + ["Trash"] + [name] == taken;
    assert facade.trash.TrashDestination(place) == Some(taken);
    assert facade.TrashRoot()[|root|] == "Trash";
    assert !facade.trash.IsSafeToMove(files, place);
  }
}
