/**
  * The managed storage of the library: an import is staged, then moved to its final place, and
  * can be taken back at any point.
  */
module ManagedStorage {
  import opened Decimals
  import opened FileStorage
  import opened ManagedLayout
  import opened Wrappers

  datatype StoragePlan = StoragePlan(
    bookId: int,
    format: BookFormat,
    encoding: StorageEncoding,
    source: Path,
    coverSource: Option<Path>)

  datatype Prepared = Prepared(
    bookId: nat,
    stagedBook: Path,
    finalBook: Path,
    relativeBook: Path,
    stagedCover: Option<Path>,
    finalCover: Option<Path>,
    relativeCover: Option<Path>)

  datatype Commit = Committed | Undone | NotUndone

  function Parent(p: Path): Path
    requires p != []
  {
    p[..|p| - 1]
  }

  function FileName(p: Path): string
    requires p != []
  {
    p[|p| - 1]
  }

  /** Where the last dot of a name is; zero as well when there is none. */
  function LastDot(name: string): (i: nat)
    ensures i > 0 ==> i < |name| && name[i] == '.'
  {
    if name == "" then 0
    else if name[|name| - 1] == '.' then |name| - 1
    else LastDot(name[..|name| - 1])
  }

  lemma {:induction false} LastDotIsLast(name: string, k: nat)
    requires k < |name| && name[k] == '.'
    ensures LastDot(name) >= k
  {
    if name[|name| - 1] != '.' {
      LastDotIsLast(name[..|name| - 1], k);
    }
  }

  /** The suffix from the last dot on, unless the name starts with that dot. */
  function Extension(name: string): (extension: string)
    ensures extension != "" ==> extension[0] == '.'
  {
    if name == ".." || LastDot(name) == 0 then "" else name[LastDot(name)..]
  }

  class Storage {
    const fs: FileSystem
    const libraryRoot: Path
    const stagingRoot: Path
    const compress: Content -> Content
    var rootsEnsured: bool

    constructor (fs: FileSystem, libraryRoot: Path, stagingRoot: Path, compress: Content -> Content)
      ensures this.fs == fs && this.libraryRoot == libraryRoot && this.stagingRoot == stagingRoot
    {
      this.fs, this.libraryRoot, this.stagingRoot, this.compress := fs, libraryRoot, stagingRoot, compress;
      rootsEnsured := false;
    }

    function Encoded(encoding: StorageEncoding, content: Content): Content {
      if encoding == Compressed then compress(content) else content
    }

    function StagingDirectory(id: nat): Path {
      stagingRoot + [FolderName(id)]
    }

    /** Imports of different books stage their files in directories that lie apart. */
    lemma StagingDirectoriesAreApart(a: nat, b: nat)
      requires a != b
      ensures AreApart(StagingDirectory(a), StagingDirectory(b))
    {
      PaddingCountsNothing(Decimal(a), 10);
      PaddingCountsNothing(Decimal(b), 10);
      DigitsValueOfDecimal(a);
      DigitsValueOfDecimal(b);
      assert StagingDirectory(a)[|stagingRoot|] == FolderName(a) && StagingDirectory(b)[|stagingRoot|] == FolderName(b);
    }

    /** What PrepareImport promises about the places it plans. */
    ghost predicate IsPlanned(p: Prepared) {
      && p.bookId > 0
      && p.stagedBook != [] && Parent(p.stagedBook) == StagingDirectory(p.bookId)
      && p.finalBook == libraryRoot + p.relativeBook
      && (exists f, e :: p.relativeBook == RelativeBookPath(p.bookId, f, e))
      && p.stagedCover.Some? == p.finalCover.Some? == p.relativeCover.Some?
      && (p.stagedCover.Some? ==>
            && p.stagedCover.value != [] && Parent(p.stagedCover.value) == StagingDirectory(p.bookId)
            && "cover." <= FileName(p.stagedCover.value)
            && p.finalCover.value == libraryRoot + p.relativeCover.value
            && (exists x :: p.relativeCover.value == RelativeCoverPath(p.bookId, x)))
    }

    ghost predicate IsPlannedFor(plan: StoragePlan, p: Prepared) {
      && IsPlanned(p)
      && p.bookId == plan.bookId
      && plan.source != [] && FileName(p.stagedBook) == FileName(plan.source)
      && p.relativeBook == RelativeBookPath(p.bookId, plan.format, plan.encoding)
      && p.stagedCover.Some? == plan.coverSource.Some?
      && (p.stagedCover.Some? ==> plan.coverSource.value != []
                                  && FileName(p.stagedCover.value) == "cover" + Extension(FileName(plan.coverSource.value)))
    }

    /** Staged files hold what the sources outside the staging directory held. */
    ghost predicate IsStaged(plan: StoragePlan, p: Prepared, before: Files, after: Files)
      requires plan.bookId > 0
    {
      && (!(StagingDirectory(plan.bookId) <= plan.source) && p.stagedCover != Some(p.stagedBook) ==>
            plan.source in before && p.stagedBook in after
            && after[p.stagedBook] == Encoded(plan.encoding, before[plan.source]))
      && (plan.coverSource.Some? && p.stagedCover.Some? && !(StagingDirectory(plan.bookId) <= plan.coverSource.value) ==>
            plan.coverSource.value in before && p.stagedCover.value in after
            && after[p.stagedCover.value] == before[plan.coverSource.value])
    }

    function StagedPaths(p: Prepared): set<Path> {
      {p.stagedBook} + if p.stagedCover.Some? then {p.stagedCover.value} else {}
    }

    function FinalPaths(p: Prepared): set<Path> {
      {p.finalBook} + if p.finalCover.Some? then {p.finalCover.value} else {}
    }

    // -------------------------------------------------------------------------------------
    // Moving and encoding single files
    // -------------------------------------------------------------------------------------

    /** Renames, or copies and deletes when the rename fails; the delete may be left to others. */
    method MoveFile(source: Path, destination: Path) returns (ok: bool)
      requires source != destination
      modifies fs`clock, fs`removals, fs`files
      ensures old(fs.removals) <= fs.removals
      ensures ok ==> source in old(fs.files) && destination in fs.files && fs.files[destination] == old(fs.files)[source]
      ensures ok && source in fs.files ==> fs.files[source] == old(fs.files)[source]
      ensures ok && fs.RemovalsWorked(old(fs.removals), fs.removals) ==> source !in fs.files
      ensures !ok ==> ChangedOnlyAt(old(fs.files), fs.files, {destination})
      ensures ChangedOnlyAt(old(fs.files), fs.files, {source, destination})
      ensures old(fs.clock) <= fs.clock
      ensures !ok && source in old(fs.files) ==> fs.FailsBetween(old(fs.clock), fs.clock)
    {
      ok := fs.Rename(source, destination);
      if ok {
        return;
      }
      ok := fs.Copy(source, destination);
      if !ok {
        return;
      }
      ghost var mark := fs.removals;
      fs.RemoveFile(source);
      assert fs.RemovalsWorked(mark, fs.removals) ==> !fs.stuck(mark);
    }

    /** Writes beside the destination first, so that a failure leaves no half-written staged file. */
    method EncodeFile(source: Path, encoding: StorageEncoding, destination: Path) returns (ok: bool)
      requires destination != []
      modifies fs`clock, fs`removals, fs`files
      ensures old(fs.removals) <= fs.removals
      ensures ChangedOnlyBelow(old(fs.files), fs.files, Parent(destination))
      ensures ok && source != destination ==>
                source in old(fs.files) && destination in fs.files
                && fs.files[destination] == Encoded(encoding, old(fs.files)[source])
      ensures ok ==> NothingNewBut(old(fs.files), fs.files, {destination})
      ensures old(fs.clock) <= fs.clock
      ensures !ok && source != destination && source in old(fs.files) ==> fs.FailsBetween(old(fs.clock), fs.clock)
    {
      if source == destination {
        return encoding == Plain;
      }
      var temporary := Parent(destination) + [FileName(destination) + ".tmp-" + Decimal(fs.clock)];
      assert Parent(destination) <= temporary && Parent(destination) <= destination;
      assert |FileName(temporary)| > |FileName(destination)|;
      var readable := fs.Attempt();
      var writable := fs.Attempt();
      if !readable || source !in fs.files || !writable {
        return false;
      }
      ok := fs.Write(temporary, Encoded(encoding, fs.files[source]));
      if ok {
        fs.RemoveFile(destination);
        ok := fs.Rename(temporary, destination);
      }
      if !ok {
        fs.RemoveFile(temporary);
      }
    }

    // -------------------------------------------------------------------------------------
    // Preparing, committing and taking back
    // -------------------------------------------------------------------------------------

    /** The places for the book alone. */
    function BookPlan(plan: StoragePlan): Prepared
      requires plan.bookId > 0 && plan.source != []
    {
      var relative := RelativeBookPath(plan.bookId, plan.format, plan.encoding);
      Prepared(plan.bookId, StagingDirectory(plan.bookId) + [FileName(plan.source)], libraryRoot + relative, relative,
               None, None, None)
    }

    /** The places for the cover as well; the extension comes with its dot. */
    function WithCover(p: Prepared, extension: string): Prepared
      requires extension != "" && extension[0] == '.'
    {
      var relative := RelativeCoverPath(p.bookId, extension[1..]);
      p.(stagedCover := Some(StagingDirectory(p.bookId) + ["cover" + extension]),
         finalCover := Some(libraryRoot + relative),
         relativeCover := Some(relative))
    }

    lemma PlansArePlanned(plan: StoragePlan, extension: string)
      requires plan.bookId > 0 && plan.source != [] && extension != "" && extension[0] == '.'
      ensures IsPlanned(BookPlan(plan)) && IsPlanned(WithCover(BookPlan(plan), extension))
    {
      assert Parent(BookPlan(plan).stagedBook) == StagingDirectory(plan.bookId);
      assert Parent(WithCover(BookPlan(plan), extension).stagedCover.value) == StagingDirectory(plan.bookId);
      assert "cover." <= "cover" + extension;
    }

    /** The cover has a name with an extension, and lies outside the staging directory. */
    predicate CoverCanBeStaged(plan: StoragePlan, files: Files)
      requires plan.bookId > 0
    {
      plan.coverSource.Some? ==>
        && plan.coverSource.value != [] && |Extension(FileName(plan.coverSource.value))| > 1
        && plan.coverSource.value in files && !(StagingDirectory(plan.bookId) <= plan.coverSource.value)
    }

    /** The files of the plan are there, outside the staging directory that is cleared first. */
    predicate CanBeStaged(plan: StoragePlan, files: Files) {
      && plan.bookId > 0 && plan.source != []
      && plan.source in files && !(StagingDirectory(plan.bookId) <= plan.source)
      && CoverCanBeStaged(plan, files)
    }

    method StageCover(plan: StoragePlan, p: Prepared) returns (r: Option<Prepared>)
      requires plan.bookId > 0 && plan.source != [] && p == BookPlan(plan) && plan.coverSource.Some?
      modifies fs`clock, fs`removals, fs`files
      ensures fs.removals == old(fs.removals)
      ensures ChangedOnlyBelow(old(fs.files), fs.files, StagingDirectory(plan.bookId))
      ensures r.Some? ==> IsPlannedFor(plan, r.value)
                          && r.value == p.(stagedCover := r.value.stagedCover, finalCover := r.value.finalCover, relativeCover := r.value.relativeCover)
                          && plan.coverSource.value in old(fs.files)
                          && fs.files == old(fs.files)[r.value.stagedCover.value := old(fs.files)[plan.coverSource.value]]
      ensures old(fs.clock) <= fs.clock
      ensures r.None? && CoverCanBeStaged(plan, old(fs.files)) ==> fs.FailsBetween(old(fs.clock), fs.clock)
    {
      var source := plan.coverSource.value;
      if source == [] || Extension(FileName(source)) == "" {
        return None;
      }
      var extension := Extension(FileName(source));
      var planned := WithCover(p, extension);
      PlansArePlanned(plan, extension);
      assert StagingDirectory(plan.bookId) <= planned.stagedCover.value;
      var ok := fs.Copy(source, planned.stagedCover.value);
      if !ok || extension[1..] == "" {
        return None;
      }
      ok := fs.Attempt();
      return if ok then Some(planned) else None;
    }

    /** Stages the book and the cover; a failure leaves what has been staged so far. */
    method StageFiles(plan: StoragePlan) returns (r: Option<Prepared>)
      requires plan.bookId > 0 && plan.source != []
      modifies fs`clock, fs`removals, fs`files
      ensures old(fs.removals) <= fs.removals
      ensures ChangedOnlyBelow(old(fs.files), fs.files, StagingDirectory(plan.bookId))
      ensures r.Some? ==> IsPlannedFor(plan, r.value) && NothingNewBut(old(fs.files), fs.files, StagedPaths(r.value))
      ensures r.Some? ==> IsStaged(plan, r.value, old(fs.files), fs.files)
      ensures old(fs.clock) <= fs.clock
      ensures r.None? && CanBeStaged(plan, old(fs.files)) ==> fs.FailsBetween(old(fs.clock), fs.clock)
    {
      var p := BookPlan(plan);
      PlansArePlanned(plan, ".");
      var ok := EncodeFile(plan.source, plan.encoding, p.stagedBook);
      assert StagingDirectory(plan.bookId) <= p.stagedBook;
      if !ok {
        return None;
      }
      ok := fs.Attempt();
      if !ok {
        return None;
      }
      if plan.coverSource.None? {
        return Some(p);
      }
      r := StageCover(plan, p);
    }

    /** The root directories are created once; a failure lets the next import try again. */
    method EnsureRoots() returns (ok: bool)
      modifies this`rootsEnsured, fs`clock
      ensures ok ==> rootsEnsured
      ensures old(fs.clock) <= fs.clock && (!ok ==> fs.FailsBetween(old(fs.clock), fs.clock))
    {
      if !rootsEnsured {
        var hasObjects := fs.Attempt();
        if hasObjects {
          rootsEnsured := fs.Attempt();
        }
      }
      return rootsEnsured;
    }

    /**
      * PrepareImport. What it promises: the planned places, staged files with the right content
      * and no other new file; or, if it throws, no new file at all.
      */
    method PrepareImport(plan: StoragePlan) returns (r: Option<Prepared>)
      modifies this`rootsEnsured, fs`clock, fs`removals, fs`files
      ensures old(fs.removals) <= fs.removals
      ensures plan.bookId <= 0 || plan.source == [] ==> r.None? && fs.files == old(fs.files)
      ensures plan.bookId > 0 ==> ChangedOnlyBelow(old(fs.files), fs.files, StagingDirectory(plan.bookId))
      ensures r.Some? ==> IsPlannedFor(plan, r.value) && IsStaged(plan, r.value, old(fs.files), fs.files)
      ensures fs.RemovalsWorked(old(fs.removals), fs.removals) ==>
                NothingNewBut(old(fs.files), fs.files, if r.Some? then StagedPaths(r.value) else {})
      ensures old(fs.clock) <= fs.clock
      ensures r.None? && CanBeStaged(plan, old(fs.files)) ==> fs.FailsBetween(old(fs.clock), fs.clock)
    {
      if plan.bookId <= 0 || plan.source == [] {
        return None;
      }
      var staging := StagingDirectory(plan.bookId);
      var rooted := EnsureRoots();
      if !rooted {
        return None;
      }
      fs.RemoveAll(staging);
      ghost var cleaned := fs.files;
      var made := fs.Attempt();
      if !made {
        return None;
      }
      r := StageFiles(plan);
      if r.None? {
        ghost var mark := fs.removals;
        fs.RemoveAll(staging);
        assert fs.RemovalsWorked(old(fs.removals), fs.removals) ==> !fs.stuck(mark);
      }
    }

    /** Final places lie outside every staging directory and differ from each other. */
    lemma PlacesAreApart(p: Prepared)
      requires IsPlanned(p) && AreApart(libraryRoot, stagingRoot)
      ensures forall q :: q in FinalPaths(p) ==> !(StagingDirectory(p.bookId) <= q)
      ensures forall q :: q in StagedPaths(p) ==> StagingDirectory(p.bookId) <= q
      ensures p.finalCover != Some(p.finalBook)
    {
      forall q | q in FinalPaths(p) ensures !(StagingDirectory(p.bookId) <= q) {
        ApartIsInherited(libraryRoot, stagingRoot, q, StagingDirectory(p.bookId));
      }
      if p.finalCover.Some? {
        var f, e :| p.relativeBook == RelativeBookPath(p.bookId, f, e);
        var x :| p.relativeCover.value == RelativeCoverPath(p.bookId, x);
        BookIsNotCover(p.bookId, f, e, x);
        BelowRoot(libraryRoot, p.relativeBook, p.relativeCover.value);
      }
    }

    method MoveCover(p: Prepared) returns (ok: bool)
      requires IsPlanned(p) && p.stagedCover.Some? && p.stagedCover != p.finalCover
      modifies fs`clock, fs`removals, fs`files
      ensures old(fs.removals) <= fs.removals
      ensures ChangedOnlyAt(old(fs.files), fs.files, {p.finalCover.value} + if ok then {p.stagedCover.value} else {})
      ensures ok ==> p.stagedCover.value in old(fs.files) && p.finalCover.value in fs.files
                     && fs.files[p.finalCover.value] == old(fs.files)[p.stagedCover.value]
      ensures old(fs.clock) <= fs.clock
      ensures !ok && p.stagedCover.value in old(fs.files) ==> fs.FailsBetween(old(fs.clock), fs.clock)
    {
      ok := fs.Attempt();
      if ok {
        ok := MoveFile(p.stagedCover.value, p.finalCover.value);
      }
    }

    /** Moving the cover after the book leaves the moved book alone. */
    lemma CoverAfterBook(p: Prepared, before: Files, between: Files, after: Files, ok: bool)
      requires IsPlanned(p) && AreApart(libraryRoot, stagingRoot) && p.stagedCover.Some?
      requires ChangedOnlyAt(before, between, {p.stagedBook, p.finalBook})
      requires p.stagedBook in between ==> p.stagedBook in before && between[p.stagedBook] == before[p.stagedBook]
      requires p.stagedBook in before && p.finalBook in between && between[p.finalBook] == before[p.stagedBook]
      requires ChangedOnlyAt(between, after, {p.finalCover.value} + if ok then {p.stagedCover.value} else {})
      requires ok ==> p.stagedCover.value in between && p.finalCover.value in after
                      && after[p.finalCover.value] == between[p.stagedCover.value]
      ensures ChangedOnlyAt(before, after, FinalPaths(p) + {p.stagedBook} + if ok then StagedPaths(p) else {})
      ensures p.finalBook in after && after[p.finalBook] == before[p.stagedBook]
      ensures ok ==> AreDelivered(p, before, after)
    {
      PlacesAreApart(p);
      assert p.finalBook in FinalPaths(p) && p.finalCover.value in FinalPaths(p);
      assert p.stagedBook in StagedPaths(p) && p.stagedCover.value in StagedPaths(p);
      assert p.stagedCover.value != p.finalBook && p.finalCover.value != p.finalBook;
    }

    /** The book, then the cover, go to their final places; this is the part that may throw. */
    method MoveToFinal(p: Prepared) returns (ok: bool, movedBook: bool)
      requires IsPlanned(p) && AreApart(libraryRoot, stagingRoot)
      modifies fs`clock, fs`removals, fs`files
      ensures old(fs.removals) <= fs.removals
      ensures ChangedOnlyAt(old(fs.files), fs.files, FinalPaths(p) + {p.stagedBook} + if ok then StagedPaths(p) else {})
      ensures ok ==> AreDelivered(p, old(fs.files), fs.files)
      ensures movedBook ==> p.stagedBook in old(fs.files) && p.finalBook in fs.files
                            && fs.files[p.finalBook] == old(fs.files)[p.stagedBook]
      ensures !movedBook ==> !ok && ChangedOnlyAt(old(fs.files), fs.files, FinalPaths(p))
      ensures old(fs.clock) <= fs.clock
      ensures !ok && AreAllStaged(p, old(fs.files)) ==> fs.FailsBetween(old(fs.clock), fs.clock)
    {
      PlacesAreApart(p);
      movedBook := false;
      ok := fs.Attempt();
      if !ok {
        return;
      }
      ok := MoveFile(p.stagedBook, p.finalBook);
      if !ok {
        return;
      }
      movedBook := true;
      ghost var between := fs.files;
      if p.stagedCover.Some? {
        ok := MoveCover(p);
        CoverAfterBook(p, old(fs.files), between, fs.files, ok);
      }
    }

    /** Everything planned is in the staging directory, each file under a name of its own. */
    predicate AreAllStaged(p: Prepared, files: Files) {
      p.stagedBook in files && (p.stagedCover.Some? ==> p.stagedCover.value in files && p.stagedCover.value != p.stagedBook)
    }

    /** The final files hold what was staged. */
    ghost predicate AreDelivered(p: Prepared, before: Files, after: Files) {
      && p.stagedBook in before && p.finalBook in after && after[p.finalBook] == before[p.stagedBook]
      && (p.stagedCover.Some? && p.finalCover.Some? ==>
            p.stagedCover.value in before && p.finalCover.value in after
            && after[p.finalCover.value] == before[p.stagedCover.value])
    }

    /** Moves the book back; a cover that was moved is never followed by a failure. */
    method UndoMoves(p: Prepared, movedBook: bool) returns (c: Commit)
      requires IsPlanned(p) && p.stagedBook != p.finalBook
      modifies fs`clock, fs`removals, fs`files
      ensures old(fs.removals) <= fs.removals && c != Committed && old(fs.clock) <= fs.clock
      ensures ChangedOnlyAt(old(fs.files), fs.files, {p.finalBook, p.stagedBook})
      ensures !movedBook ==> c == Undone && fs.files == old(fs.files)
      ensures movedBook && c == Undone ==> p.finalBook in old(fs.files) && p.stagedBook in fs.files
                                           && fs.files[p.stagedBook] == old(fs.files)[p.finalBook]
      ensures c == NotUndone && p.finalBook in old(fs.files) ==> fs.FailsBetween(old(fs.clock), fs.clock)
    {
      if movedBook {
        var made := fs.Attempt();
        if !made {
          return NotUndone;
        }
        var restored := MoveFile(p.finalBook, p.stagedBook);
        if !restored {
          return NotUndone;
        }
      }
      return Undone;
    }

    /**
      * CommitImport. When it returns, the final files hold what was staged. When it throws and
      * its own undo worked, the staged files are as they were.
      */
    method CommitImport(p: Prepared) returns (c: Commit)
      requires IsPlanned(p) && AreApart(libraryRoot, stagingRoot)
      modifies fs`clock, fs`removals, fs`files
      ensures old(fs.removals) <= fs.removals
      ensures ChangedOnlyIn(old(fs.files), fs.files, StagingDirectory(p.bookId), FinalPaths(p))
      ensures c == Committed ==> AreDelivered(p, old(fs.files), fs.files)
      ensures c == Committed && fs.RemovalsWorked(old(fs.removals), fs.removals) ==>
                forall q :: q in fs.files ==> !(StagingDirectory(p.bookId) <= q)
      ensures c == Undone ==> forall q :: q in StagedPaths(p) && q in old(fs.files) ==> q in fs.files && fs.files[q] == old(fs.files)[q]
      ensures NothingNewBut(old(fs.files), fs.files, StagedPaths(p) + FinalPaths(p))
      ensures old(fs.clock) <= fs.clock
      ensures c != Committed && AreAllStaged(p, old(fs.files)) ==> fs.FailsBetween(old(fs.clock), fs.clock)
      ensures c == NotUndone && AreAllStaged(p, old(fs.files)) ==> fs.FailsTwice(old(fs.clock), fs.clock)
    {
      PlacesAreApart(p);
      var ok, movedBook := MoveToFinal(p);
      ghost var moved := fs.clock;
      if ok {
        ghost var mark := fs.removals;
        fs.RemoveAll(Parent(p.stagedBook));
        assert fs.RemovalsWorked(old(fs.removals), fs.removals) ==> !fs.stuck(mark);
        return Committed;
      }
      c := UndoMoves(p, movedBook);
    }

    /** Whatever lies at or below the path is the book's own. */
    ghost predicate IsOwnPlace(id: nat, d: Path) {
      forall q :: d <= q ==> IsOwn(id, q)
    }

    method RemoveOwn(ghost id: nat, d: Path)
      requires IsOwnPlace(id, d)
      modifies fs`removals, fs`files
      ensures fs.removals == old(fs.removals) + 1
      ensures IsPartOf(fs.files, old(fs.files)) && LosesOnlyOwn(id, old(fs.files), fs.files)
      ensures !fs.stuck(old(fs.removals)) ==> d !in fs.files
    {
      fs.RemoveAll(d);
    }

    method RemoveBoth(ghost id: nat, staged: Path, finalPlace: Path)
      requires IsOwnPlace(id, staged) && IsOwnPlace(id, finalPlace)
      modifies fs`removals, fs`files
      ensures fs.removals == old(fs.removals) + 2
      ensures IsPartOf(fs.files, old(fs.files)) && LosesOnlyOwn(id, old(fs.files), fs.files)
      ensures !fs.stuck(old(fs.removals)) ==> staged !in fs.files
      ensures !fs.stuck(old(fs.removals) + 1) ==> finalPlace !in fs.files
    {
      RemoveOwn(id, staged);
      RemoveOwn(id, finalPlace);
    }

    ghost predicate LosesOnlyOwn(id: nat, before: Files, after: Files) {
      forall q :: q in before && q !in after ==> IsOwn(id, q)
    }

    /** RollbackImport never throws; when the removals work, no planned file is left. */
    method RollbackImport(p: Prepared)
      requires IsPlanned(p)
      modifies fs`removals, fs`files
      ensures old(fs.removals) <= fs.removals
      ensures IsPartOf(fs.files, old(fs.files)) && LosesOnlyOwn(p.bookId, old(fs.files), fs.files)
      ensures fs.RemovalsWorked(old(fs.removals), fs.removals) ==> AreGone(fs.files, StagedPaths(p) + FinalPaths(p))
    {
      ghost var first := fs.removals;
      OwnPlaces(p);
      RemoveBoth(p.bookId, p.stagedBook, p.finalBook);
      if p.stagedCover.Some? {
        RemoveBoth(p.bookId, p.stagedCover.value, p.finalCover.value);
      }
      assert fs.RemovalsWorked(first, fs.removals) ==>
          !fs.stuck(first) && !fs.stuck(first + 1) && (p.stagedCover.Some? ==> !fs.stuck(first + 2) && !fs.stuck(first + 3));
    }

    /** The staging directory of a book, and the places under the library root that bear its id. */
    predicate IsOwn(id: nat, q: Path) {
      StagingDirectory(id) <= q || (libraryRoot <= q && OwnerOf(q[|libraryRoot|..]) == Some(id))
    }

    lemma OwnPlaces(p: Prepared)
      requires IsPlanned(p)
      ensures forall d :: d in StagedPaths(p) + FinalPaths(p) ==> IsOwnPlace(p.bookId, d)
    {
      forall d | d in StagedPaths(p) + FinalPaths(p) ensures IsOwnPlace(p.bookId, d) {
        forall q | d <= q ensures IsOwn(p.bookId, q) {
          if d in StagedPaths(p) {
            assert Parent(d) <= d;
          } else {
            FinalPlacesAreOwn(p, d, q);
          }
        }
      }
    }

    lemma PlacesOfBook(p: Prepared)
      requires IsPlanned(p)
      ensures forall d :: d in FinalPaths(p) ==> IsOwn(p.bookId, d) && libraryRoot <= d
      ensures forall d :: d in StagedPaths(p) ==> IsOwn(p.bookId, d) && StagingDirectory(p.bookId) <= d
    {
      forall d | d in FinalPaths(p) ensures IsOwn(p.bookId, d) && libraryRoot <= d {
        FinalPlacesAreOwn(p, d, d);
      }
      forall d | d in StagedPaths(p) ensures StagingDirectory(p.bookId) <= d {
        assert Parent(d) <= d;
      }
    }

    lemma FinalPlacesAreOwn(p: Prepared, d: Path, q: Path)
      requires IsPlanned(p) && d in FinalPaths(p) && d <= q
      ensures libraryRoot <= q && OwnerOf(q[|libraryRoot|..]) == Some(p.bookId)
    {
      var f, e :| p.relativeBook == RelativeBookPath(p.bookId, f, e);
      OwnerInvertsManagedPaths(p.bookId, f, e, "");
      if d != p.finalBook {
        var x :| p.relativeCover.value == RelativeCoverPath(p.bookId, x);
        OwnerInvertsManagedPaths(p.bookId, f, e, x);
      }
      assert q[|libraryRoot|..][3] == d[|libraryRoot|..][3];
    }
  }
}
