/**
  * Taking back the books of a cancelled import: look up their files, delete their rows in one
  * batch or one by one, and delete the files of those whose row is gone.
  */
module ImportRollback {
  import opened BookDatabase
  import opened Catalogue
  import CatalogueRuns
  import opened FileStorage
  import opened ManagedLayout
  import opened MetadataNormalization
  import SingleFileImport
  import opened Wrappers

  datatype BookPaths = BookPaths(id: BookId, cover: Option<Path>, book: Option<Path>)

  predicate IsDistinct(ids: seq<BookId>) {
    forall i, j :: 0 <= i < j < |ids| ==> ids[i] != ids[j]
  }

  function IdSet(ids: seq<BookId>): set<BookId> {
    set id | id in ids
  }

  function IdsOf(paths: seq<BookPaths>): (ids: seq<BookId>)
    ensures |ids| == |paths| && forall i :: 0 <= i < |ids| ==> ids[i] == paths[i].id
  {
    seq(|paths|, i requires 0 <= i < |paths| => paths[i].id)
  }

  class RollbackService {
    const db: Database
    const fs: FileSystem
    const libraryRoot: Path
    /** The relative path that a text in the catalogue spells. */
    const pathOf: Text -> Path

    constructor (db: Database, fs: FileSystem, libraryRoot: Path, pathOf: Text -> Path)
      ensures this.db == db && this.fs == fs && this.libraryRoot == libraryRoot && this.pathOf == pathOf
    {
      this.db, this.fs, this.libraryRoot, this.pathOf := db, fs, libraryRoot, pathOf;
    }

    ghost predicate IsReady()
      reads this, db
    {
      db.saved == [] && CatalogueRuns.IsCatalogue(db.tables) && IsLawful(db.tokens)
    }

    function PathsOf(books: map<BookId, BookRow>, id: BookId): BookPaths {
      if id !in books then BookPaths(id, None, None)
      else
        var row := books[id];
        BookPaths(id,
                  if row.coverPath.Some? then Some(pathOf(row.coverPath.value)) else None,
                  if row.managedPath != [] then Some(pathOf(row.managedPath)) else None)
    }

    /** The files that the catalogue attributes to a book, where they can be deleted safely. */
    function PlacesOf(books: map<BookId, BookRow>, id: BookId): set<Path> {
      var paths := PathsOf(books, id);
      (if paths.cover.Some? && IsSafeRelative(paths.cover.value) then {libraryRoot + paths.cover.value} else {})
      + (if paths.book.Some? && IsSafeRelative(paths.book.value) then {libraryRoot + paths.book.value} else {})
    }

    /** Looks the books up, the last import first. */
    method LookUp(ids: seq<BookId>) returns (found: seq<BookPaths>, unreachable: seq<BookId>)
      requires IsDistinct(ids)
      modifies db`clock
      ensures old(db.clock) <= db.clock
      ensures IsDistinct(IdsOf(found) + unreachable)
      ensures IdSet(IdsOf(found) + unreachable) == IdSet(ids)
      ensures forall i :: 0 <= i < |found| ==> found[i] == PathsOf(db.tables.books, found[i].id)
      ensures unreachable != [] ==> db.FailsBetween(old(db.clock), db.clock)
    {
      found, unreachable := [], [];
      var i := |ids|;
      while i > 0
        invariant 0 <= i <= |ids| && old(db.clock) <= db.clock
        invariant IsDistinct(IdsOf(found) + unreachable)
        invariant IdSet(IdsOf(found) + unreachable) == IdSet(ids[i..])
        invariant forall k :: 0 <= k < |found| ==> found[k] == PathsOf(db.tables.books, found[k].id)
        invariant unreachable != [] ==> db.FailsBetween(old(db.clock), db.clock)
      {
        i := i - 1;
        ghost var seen := IdsOf(found) + unreachable;
        assert ids[i] !in IdSet(ids[i + 1..]);
        assert IdSet(ids[i..]) == IdSet(ids[i + 1..]) + {ids[i]};
        var ok := db.Execute();
        if ok {
          Inserting(IdsOf(found), unreachable, ids[i]);
          assert IdsOf(found + [PathsOf(db.tables.books, ids[i])]) == IdsOf(found) + [ids[i]];
          found := found + [PathsOf(db.tables.books, ids[i])];
        } else {
          Inserting(seen, [], ids[i]);
          assert IdsOf(found) + (unreachable + [ids[i]]) == seen + [ids[i]] + [];
          unreachable := unreachable + [ids[i]];
        }
      }
      assert ids[0..] == ids;
    }

    /** One batch, or one by one if the batch fails; the answer names the books still there. */
    method RemoveReachable(found: seq<BookPaths>) returns (failed: set<BookId>)
      requires IsReady() && IsDistinct(IdsOf(found))
      modifies db`clock, db`tables, db`saved
      ensures IsReady() && old(db.clock) <= db.clock
      ensures failed <= IdSet(IdsOf(found))
      ensures db.tables.books == old(db.tables.books) - (IdSet(IdsOf(found)) - failed)
      ensures failed != {} ==> db.FailsBetween(old(db.clock), db.clock)
    {
      var reachable := IdsOf(found);
      if reachable == [] {
        return {};
      }
      var ok := db.RemoveBatch(reachable);
      if ok {
        assert IdSet(reachable) == set i | 0 <= i < |reachable| :: reachable[i];
        CatalogueRuns.RowsRemovedMeaning(db.tokens, old(db.tables), IdSet(reachable));
        return {};
      }
      failed := RemoveOneByOne(reachable);
    }

    method RemoveOneByOne(ids: seq<BookId>) returns (failed: set<BookId>)
      requires IsReady() && IsDistinct(ids)
      modifies db`clock, db`tables, db`saved
      ensures IsReady() && old(db.clock) <= db.clock
      ensures failed <= IdSet(ids) && db.tables.books == old(db.tables.books) - (IdSet(ids) - failed)
      ensures failed != {} ==> db.FailsBetween(old(db.clock), db.clock)
    {
      failed := {};
      for i := 0 to |ids|
        invariant IsReady() && old(db.clock) <= db.clock
        invariant failed <= IdSet(ids[..i])
        invariant db.tables.books == old(db.tables.books) - (IdSet(ids[..i]) - failed)
        invariant failed != {} ==> db.FailsBetween(old(db.clock), db.clock)
      {
        assert ids[..i + 1] == ids[..i] + [ids[i]];
        assert IdSet(ids[..i + 1]) == IdSet(ids[..i]) + {ids[i]} && ids[i] !in IdSet(ids[..i]);
        CatalogueRuns.RemovedRow(db.tokens, db.tables, ids[i]);
        var removed := db.Remove(ids[i]);
        if !removed {
          failed := failed + {ids[i]};
        }
      }
      assert ids[..|ids|] == ids;
    }

    /** Every file operation and every removal since these points in the life of the file system worked. */
    ghost predicate FilesWorked(operations: nat, removals: nat)
      reads fs
    {
      !fs.FailsBetween(operations, fs.clock) && fs.RemovalsWorked(removals, fs.removals)
    }

    /** There is a file at this path, and the path could lead out of the library. */
    predicate IsUnsafeFile(path: Option<Path>, files: Files) {
      path.Some? && path.value != [] && !IsSafeRelative(path.value) && libraryRoot + path.value in files
    }

    /** The catalogue names a file for this book that must not be deleted. */
    predicate NamesUnsafeFile(books: map<BookId, BookRow>, id: BookId, files: Files) {
      IsUnsafeFile(PathsOf(books, id).cover, files) || IsUnsafeFile(PathsOf(books, id).book, files)
    }

    /** Deleting files at safe paths takes no file from an unsafe one. */
    lemma UnsafeFilesStay(books: map<BookId, BookRow>, ids: set<BookId>, before: Files, after: Files, path: Option<Path>)
      requires LosesOnlyFilesOf(books, ids, before, after)
      ensures IsUnsafeFile(path, after) <==> IsUnsafeFile(path, before)
    {
      if IsUnsafeFile(path, before) && libraryRoot + path.value !in after {
        var id :| id in ids && libraryRoot + path.value in PlacesOf(books, id);
        SafetyIsOfThePlace(books, id, path.value);
      }
    }

    lemma SafetyIsOfThePlace(books: map<BookId, BookRow>, id: BookId, path: Path)
      requires libraryRoot + path in PlacesOf(books, id)
      ensures IsSafeRelative(path)
    {
      var paths := PathsOf(books, id);
      assert (libraryRoot + path)[|libraryRoot|..] == path;
      if paths.cover.Some? {
        assert (libraryRoot + paths.cover.value)[|libraryRoot|..] == paths.cover.value;
      }
      if paths.book.Some? {
        assert (libraryRoot + paths.book.value)[|libraryRoot|..] == paths.book.value;
      }
    }

    /** The row names this path, as its cover or as its book file. */
    predicate IsNamedIn(row: BookRow, path: Path) {
      || (row.coverPath.Some? && pathOf(row.coverPath.value) == path)
      || (row.managedPath != [] && pathOf(row.managedPath) == path)
    }

    /** The places of a book are what its row names safely, and what it names otherwise is an unsafe file. */
    lemma PlacesMeaning(books: map<BookId, BookRow>, id: BookId, path: Path, files: Files)
      ensures libraryRoot + path in PlacesOf(books, id) <==> id in books && IsNamedIn(books[id], path) && IsSafeRelative(path)
      ensures id in books && IsNamedIn(books[id], path) && path != [] && libraryRoot + path in files && !IsSafeRelative(path) ==>
                NamesUnsafeFile(books, id, files)
      ensures NamesUnsafeFile(books, id, files) ==>
                id in books && exists q :: IsNamedIn(books[id], q) && q != [] && libraryRoot + q in files && !IsSafeRelative(q)
    {
      var paths := PathsOf(books, id);
      assert forall q: Path :: (libraryRoot + q)[|libraryRoot|..] == q;
      if IsUnsafeFile(paths.cover, files) {
        assert IsNamedIn(books[id], paths.cover.value);
      }
      if IsUnsafeFile(paths.book, files) {
        assert IsNamedIn(books[id], paths.book.value);
      }
    }

    /** CleanupManagedPathNoThrow; true is the warning that something is left. */
    method DeleteManagedFile(path: Path) returns (warned: bool)
      modifies fs`clock, fs`removals, fs`files
      ensures fs.files == old(fs.files)
              || (IsSafeRelative(path) && fs.files == old(fs.files) - {libraryRoot + path})
      ensures !warned && path != [] ==> libraryRoot + path !in fs.files
      ensures old(fs.clock) <= fs.clock && old(fs.removals) <= fs.removals
      ensures FilesWorked(old(fs.clock), old(fs.removals)) ==>
                && (warned <==> IsUnsafeFile(Some(path), old(fs.files)))
                && (IsSafeRelative(path) ==> libraryRoot + path !in fs.files)
    {
      if path == [] {
        return false;
      }
      var inspected := fs.Attempt();
      if !inspected {
        return true;
      }
      if libraryRoot + path !in fs.files {
        return false;
      }
      var resolved := fs.Attempt();
      if !resolved || !IsSafeRelative(path) {
        return true;
      }
      fs.RemoveFile(libraryRoot + path);
      return libraryRoot + path in fs.files;
    }

    /** Files were lost only from the places of these books. */
    ghost predicate LosesOnlyFilesOf(books: map<BookId, BookRow>, ids: set<BookId>, before: Files, after: Files) {
      && IsPartOf(after, before)
      && forall p :: p in before && p !in after ==> exists id :: id in ids && p in PlacesOf(books, id)
    }

    ghost predicate HaveNoFiles(books: map<BookId, BookRow>, ids: set<BookId>, files: Files) {
      forall id, p :: id in ids && p in PlacesOf(books, id) ==> p !in files
    }

    /** Nothing is left of these books but files that must not be deleted, and residue is reported exactly for those. */
    ghost predicate IsCleanedUp(books: map<BookId, BookRow>, ids: set<BookId>, before: Files, after: Files, residue: bool) {
      && HaveNoFiles(books, ids, after)
      && (residue <==> exists id :: id in ids && NamesUnsafeFile(books, id, before))
    }

    /** What the clean-up does with the files of books that are gone; `worked` says that no file operation failed. */
    ghost predicate AreTakenBack(books: map<BookId, BookRow>, ids: set<BookId>, before: Files, after: Files, residue: bool, worked: bool) {
      && LosesOnlyFilesOf(books, ids, before, after)
      && (!residue ==> HaveNoFiles(books, ids, after))
      && (worked ==> IsCleanedUp(books, ids, before, after, residue))
    }

    /** The cover and the book file of one removed book, and its directory. */
    method DeleteFilesOf(paths: BookPaths, ghost books: map<BookId, BookRow>) returns (warned: bool)
      requires paths == PathsOf(books, paths.id)
      modifies fs`clock, fs`removals, fs`files
      ensures IsPartOf(fs.files, old(fs.files))
      ensures forall p :: p in old(fs.files) && p !in fs.files ==> p in PlacesOf(books, paths.id)
      ensures !warned ==> forall p :: p in PlacesOf(books, paths.id) ==> p !in fs.files
      ensures old(fs.clock) <= fs.clock && old(fs.removals) <= fs.removals
      ensures FilesWorked(old(fs.clock), old(fs.removals)) ==>
                && (warned <==> NamesUnsafeFile(books, paths.id, old(fs.files)))
                && forall p :: p in PlacesOf(books, paths.id) ==> p !in fs.files
    {
      warned := false;
      if paths.cover.Some? {
        warned := DeleteManagedFile(paths.cover.value);
      }
      assert LosesOnlyFilesOf(books, {paths.id}, old(fs.files), fs.files);
      if paths.book.Some? {
        UnsafeFilesStay(books, {paths.id}, old(fs.files), fs.files, paths.book);
        var left := DeleteManagedFile(paths.book.value);
        var tidied := fs.Attempt();
        warned := warned || left || !tidied;
      }
    }

    /** Deletes the files of the books whose rows are gone and lists the others. */
    method CleanUpFiles(found: seq<BookPaths>, failed: set<BookId>, ghost books: map<BookId, BookRow>)
      returns (remaining: seq<BookId>, residue: bool)
      requires IsDistinct(IdsOf(found)) && failed <= IdSet(IdsOf(found))
      requires forall i :: 0 <= i < |found| ==> found[i] == PathsOf(books, found[i].id)
      modifies fs`clock, fs`removals, fs`files
      ensures IsDistinct(remaining) && IdSet(remaining) == failed
      ensures old(fs.clock) <= fs.clock && old(fs.removals) <= fs.removals
      ensures AreTakenBack(books, IdSet(IdsOf(found)) - failed, old(fs.files), fs.files, residue,
                           FilesWorked(old(fs.clock), old(fs.removals)))
    {
      remaining, residue := [], false;
      ghost var ids := IdsOf(found);
      for i := 0 to |found|
        invariant IsDistinct(remaining) && IdSet(remaining) == failed * IdSet(ids[..i])
        invariant LosesOnlyFilesOf(books, IdSet(ids[..i]) - failed, old(fs.files), fs.files)
        invariant !residue ==> HaveNoFiles(books, IdSet(ids[..i]) - failed, fs.files)
        invariant old(fs.clock) <= fs.clock && old(fs.removals) <= fs.removals
        invariant FilesWorked(old(fs.clock), old(fs.removals)) ==>
                    IsCleanedUp(books, IdSet(ids[..i]) - failed, old(fs.files), fs.files, residue)
      {
        assert ids[..i + 1] == ids[..i] + [ids[i]];
        assert IdSet(ids[..i + 1]) == IdSet(ids[..i]) + {ids[i]} && ids[i] !in IdSet(ids[..i]);
        if found[i].id in failed {
          assert remaining + [found[i].id] + [] == remaining + [found[i].id] && remaining + [] == remaining;
          Inserting(remaining, [], found[i].id);
          assert failed * IdSet(ids[..i + 1]) == failed * IdSet(ids[..i]) + {ids[i]};
          assert IdSet(ids[..i + 1]) - failed == IdSet(ids[..i]) - failed;
          remaining := remaining + [found[i].id];
        } else {
          assert failed * IdSet(ids[..i + 1]) == failed * IdSet(ids[..i]);
          assert IdSet(ids[..i + 1]) - failed == IdSet(ids[..i]) - failed + {ids[i]};
          ghost var middle := fs.files;
          var warned := DeleteFilesOf(found[i], books);
          UnsafeFilesStay(books, IdSet(ids[..i]) - failed, old(fs.files), middle, PathsOf(books, ids[i]).cover);
          UnsafeFilesStay(books, IdSet(ids[..i]) - failed, old(fs.files), middle, PathsOf(books, ids[i]).book);
          residue := residue || warned;
        }
      }
      assert ids[..|ids|] == ids;
    }

    /**
      * RollbackImportedBooks. Every book is either gone from the catalogue or listed once as
      * remaining, and only files of books that are gone have been deleted.
      */
    method RollbackImportedBooks(importedIds: seq<BookId>) returns (remaining: seq<BookId>, residue: bool)
      requires IsReady() && IsDistinct(importedIds)
      modifies db`clock, db`tables, db`saved, fs`clock, fs`removals, fs`files
      ensures IsReady() && IsDistinct(remaining) && IdSet(remaining) <= IdSet(importedIds)
      ensures db.tables.books == old(db.tables.books) - (IdSet(importedIds) - IdSet(remaining))
      ensures remaining != [] ==> db.FailsBetween(old(db.clock), db.clock)
      ensures old(fs.clock) <= fs.clock && old(fs.removals) <= fs.removals
      ensures AreTakenBack(old(db.tables.books), IdSet(importedIds) - IdSet(remaining), old(fs.files), fs.files, residue,
                           FilesWorked(old(fs.clock), old(fs.removals)))
    {
      var found, unreachable := LookUp(importedIds);
      ghost var reachable := IdsOf(found);
      DistinctParts(reachable, unreachable);
      var failed := RemoveReachable(found);
      remaining, residue := CleanUpFiles(found, failed, old(db.tables.books));
      assert remaining != [] ==> remaining[0] in IdSet(remaining);
      DistinctConcatenation(remaining, unreachable);
      remaining := remaining + unreachable;
      assert IdSet(importedIds) - IdSet(remaining) == IdSet(reachable) - failed;
    }

    // -------------------------------------------------------------------------------------
    // Books that stay keep their files
    // -------------------------------------------------------------------------------------

    /** The row names the managed files of its own id, as imports write it. */
    ghost predicate IsManagedRow(id: BookId, row: BookRow) {
      && id > 0 && row.managedPath != []
      && (exists f, e :: pathOf(row.managedPath) == RelativeBookPath(id, f, e))
      && (row.coverPath.Some? ==> exists x :: pathOf(row.coverPath.value) == RelativeCoverPath(id, x))
    }

    lemma PlacesNameTheirOwner(books: map<BookId, BookRow>, id: BookId, p: Path)
      requires id in books && IsManagedRow(id, books[id]) && p in PlacesOf(books, id)
      ensures libraryRoot <= p && OwnerOf(p[|libraryRoot|..]) == Some(id)
    {
      var row := books[id];
      var f, e :| pathOf(row.managedPath) == RelativeBookPath(id, f, e);
      OwnerInvertsManagedPaths(id, f, e, "");
      if row.coverPath.Some? {
        var x :| pathOf(row.coverPath.value) == RelativeCoverPath(id, x);
        OwnerInvertsManagedPaths(id, f, e, x);
      }
      assert forall q: Path :: (libraryRoot + q)[|libraryRoot|..] == q;
    }

    /**
      * No book that is still in the catalogue loses a file: the files of distinct managed books
      * are distinct, so deleting those of the removed ones cannot reach it.
      */
    lemma RemainingBooksKeepTheirFiles(books: map<BookId, BookRow>, removed: set<BookId>, before: Files, after: Files, id: BookId)
      requires LosesOnlyFilesOf(books, removed, before, after)
      requires forall other :: other in books ==> IsManagedRow(other, books[other])
      requires id in books && id !in removed
      ensures forall p :: p in PlacesOf(books, id) && p in before ==> p in after && after[p] == before[p]
    {
      forall p | p in PlacesOf(books, id) && p in before ensures p in after {
        if p !in after {
          var other :| other in removed && p in PlacesOf(books, other);
          PlacesNameTheirOwner(books, id, p);
          PlacesNameTheirOwner(books, other, p);
        }
      }
    }
  }

  /** Rows written by the import coordinator name their own files, if stored paths read back. */
  lemma ImportedRowsAreManaged(service: RollbackService, c: SingleFileImport.Coordinator, request: SingleFileImport.Request,
                               f: SingleFileImport.Findings, id: nat, t: SingleFileImport.Traces)
    requires f.format.Some? && f.metadata.Some? && id > 0 && c.IsPlannedImport(request, f, id, t)
    requires c.storage.IsPlanned(t.prepared.value) && t.prepared.value.bookId == id
    requires forall p :: p != [] ==> c.pathText(p) != [] && service.pathOf(c.pathText(p)) == p
    ensures service.IsManagedRow(id, RowOf(c.NewBook(request, f, id, t)))
  {
    var p := t.prepared.value;
    assert p.relativeBook != [];
    if p.relativeCover.Some? {
      var x :| p.relativeCover.value == RelativeCoverPath(id, x);
      assert p.relativeCover.value != [];
    }
  }

  lemma DistinctParts(a: seq<BookId>, b: seq<BookId>)
    requires IsDistinct(a + b)
    ensures IsDistinct(a) && IsDistinct(b) && IdSet(a) !! IdSet(b) && IdSet(a + b) == IdSet(a) + IdSet(b)
  {
    var whole := a + b;
    forall i, j | 0 <= i < j < |a| ensures a[i] != a[j] {
      assert whole[i] != whole[j];
    }
    forall i, j | 0 <= i < j < |b| ensures b[i] != b[j] {
      assert whole[|a| + i] != whole[|a| + j];
    }
    forall x | x in a ensures x !in b {
      var i :| 0 <= i < |a| && a[i] == x;
      forall j | 0 <= j < |b| ensures b[j] != x {
        assert whole[i] != whole[|a| + j];
      }
    }
  }

  lemma DistinctConcatenation(a: seq<BookId>, b: seq<BookId>)
    requires IsDistinct(a) && IsDistinct(b) && IdSet(a) !! IdSet(b)
    ensures IsDistinct(a + b) && IdSet(a + b) == IdSet(a) + IdSet(b)
  {
    forall i, j | 0 <= i < j < |a + b| ensures (a + b)[i] != (a + b)[j] {
      if i < |a| <= j {
        assert a[i] in IdSet(a) && b[j - |a|] in IdSet(b);
      }
    }
  }

  lemma Inserting(a: seq<BookId>, b: seq<BookId>, id: BookId)
    requires IsDistinct(a + b) && id !in IdSet(a + b)
    ensures IsDistinct(a + [id] + b) && IdSet(a + [id] + b) == IdSet(a + b) + {id}
  {
    var before, after := a + b, a + [id] + b;
    forall k | 0 <= k < |after| && k != |a| ensures after[k] == before[if k < |a| then k else k - 1] {
    }
    forall x | x in before ensures x in after {
      var k :| 0 <= k < |before| && before[k] == x;
      assert after[if k < |a| then k else k + 1] == x;
    }
  }
}
