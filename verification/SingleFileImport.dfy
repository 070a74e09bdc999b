/**
  * Importing one file: a catalogue row, staged files and final files, with the compensation
  * that the coordinator runs when a step throws or the user cancels.
  */
module SingleFileImport {
  import opened BookDatabase
  import opened Catalogue
  import CatalogueRuns
  import opened Decimals
  import opened FileStorage
  import opened ManagedLayout
  import opened ManagedStorage
  import opened MetadataNormalization
  import opened Wrappers

  datatype Status = Imported | RejectedDuplicate | Cancelled | Failed | UnsupportedFormat

  datatype Request = Request(
    source: Path,
    workingDirectory: Path,
    sha256: Option<Text>,
    preReserved: Option<BookId>,
    allowProbable: bool,
    forceEpub: bool,
    importCovers: bool)

  datatype Cover = Cover(extension: string, content: Content)
  datatype Conversion = Converted | ConversionFailed | ConversionCancelled

  /** What parsers, hashing, the duplicate query, the converter and the image processor answer. */
  datatype Findings = Findings(
    format: Option<BookFormat>,
    metadata: Option<Metadata>,
    sha256: Option<Text>,
    hasStrictDuplicate: bool,
    hasProbableDuplicate: bool,
    canConvert: bool,
    conversion: Conversion,
    convertedOutput: Option<Content>,
    cover: Option<Cover>)

  datatype Source = Store(path: Path, format: BookFormat) | Refuse(status: Status) | Throw

  /** `catalogueKept` says that the row of the failed import could not be removed. */
  datatype Result = Result(status: Status, importedId: Option<BookId>, catalogueKept: bool)

  /** The files an import may have left while it runs. */
  datatype Traces = Traces(prepared: Option<Prepared>, converted: Option<Path>, cover: Option<Path>)

  const NO_TRACES: Traces := Traces(None, None, None)

  function EncodingOf(format: BookFormat, forceEpub: bool): StorageEncoding {
    if format == Fb2 && !forceEpub then Compressed else Plain
  }

  class Coordinator {
    const db: Database
    const storage: Storage
    const pathText: Path -> Text
    /** Decide for the steps outside database and files whether they throw, and for polls whether to stop. */
    const throws: nat -> bool
    const isCancelled: nat -> bool
    var step: nat

    constructor (db: Database, storage: Storage, pathText: Path -> Text, throws: nat -> bool, isCancelled: nat -> bool)
      ensures this.db == db && this.storage == storage
    {
      this.db, this.storage, this.pathText := db, storage, pathText;
      this.throws, this.isCancelled := throws, isCancelled;
      step := 0;
    }

    ghost predicate IsReady()
      reads this, db, storage
    {
      && db.saved == [] && CatalogueRuns.IsCatalogue(db.tables) && IsLawful(db.tokens)
      && AreApart(storage.libraryRoot, storage.stagingRoot)
    }

    /** One of the steps with these numbers threw, or one of the polls asked to stop. */
    ghost predicate ThrowsBetween(from: nat, to: nat) {
      exists n :: from <= n < to && throws(n)
    }

    ghost predicate StopsBetween(from: nat, to: nat) {
      exists n :: from <= n < to && isCancelled(n)
    }

    /** Something has failed since these points in the lives of the import, the database and the files. */
    ghost predicate SomethingFailed(steps: nat, statements: nat, operations: nat)
      reads this, db, storage.fs
    {
      || ThrowsBetween(steps, step)
      || db.FailsBetween(statements, db.clock)
      || storage.fs.FailsBetween(operations, storage.fs.clock)
    }

    /** A progress report, a parser, or another collaborator. */
    method Call() returns (ok: bool)
      modifies this`step
      ensures step == old(step) + 1 && (ok <==> !throws(old(step))) && (!ok ==> ThrowsBetween(old(step), step))
    {
      ok := !throws(step);
      step := step + 1;
    }

    method Poll() returns (stop: bool)
      modifies this`step
      ensures step == old(step) + 1 && (stop <==> isCancelled(old(step))) && (stop ==> StopsBetween(old(step), step))
    {
      stop := isCancelled(step);
      step := step + 1;
    }

    // -------------------------------------------------------------------------------------
    // Places
    // -------------------------------------------------------------------------------------

    function ConvertedPath(request: Request, id: int): Path {
      request.workingDirectory + ["converted-" + Signed(id) + ".epub"]
    }

    function TemporaryCoverPath(request: Request, id: int, extension: string): Path
      requires extension != ""
    {
      request.workingDirectory + ["covers", "cover-" + Signed(id) + (if extension[0] == '.' then "" else ".") + extension]
    }

    function TracePaths(t: Traces): set<Path> {
      (if t.prepared.Some? then storage.StagedPaths(t.prepared.value) + storage.FinalPaths(t.prepared.value) else {})
      + (if t.converted.Some? then {t.converted.value} else {})
      + (if t.cover.Some? then {t.cover.value} else {})
    }

    ghost predicate AreTraces(t: Traces, id: int, request: Request) {
      && (t.prepared.Some? ==> storage.IsPlanned(t.prepared.value) && t.prepared.value.bookId == id)
      && (t.converted.Some? ==> request.workingDirectory <= t.converted.value)
      && (t.cover.Some? ==> request.workingDirectory <= t.cover.value)
    }

    /** Only the working directory and the places of this book have changed. */
    ghost predicate ChangedOnlyOwn(before: Files, after: Files, id: int, request: Request) {
      forall p :: !(request.workingDirectory <= p) && !(id > 0 && storage.IsOwn(id, p)) ==>
        (p in before <==> p in after) && (p in before ==> before[p] == after[p])
    }

    // -------------------------------------------------------------------------------------
    // The steps of the import
    // -------------------------------------------------------------------------------------

    /** No strict duplicate, and a probable one only with the user's consent. */
    predicate IsAdmissible(request: Request, f: Findings) {
      !f.hasStrictDuplicate && (f.hasProbableDuplicate ==> request.allowProbable)
    }

    /** A refusal before any file is written has one of three reasons. */
    predicate IsGroundedRefusal(request: Request, f: Findings, status: Status) {
      match status
      case Cancelled => true
      case UnsupportedFormat => f.format.None?
      case RejectedDuplicate => !IsAdmissible(request, f)
      case _ => false
    }

    predicate NeedsConversion(request: Request, f: Findings) {
      f.format == Some(Fb2) && request.forceEpub
    }

    /** There is a converter that can take the book, and it returns one. */
    predicate ConversionDelivers(f: Findings) {
      f.canConvert && f.conversion == Converted && f.convertedOutput.Some?
    }

    predicate ConverterStops(request: Request, f: Findings) {
      NeedsConversion(request, f) && f.canConvert && f.conversion == ConversionCancelled
    }

    predicate WantsCover(request: Request, f: Findings) {
      request.importCovers && f.cover.Some? && f.cover.value.extension != "" && f.cover.value.content != []
    }

    /** The name the cover will have while it is staged. */
    function StagedCoverName(request: Request, f: Findings, id: int): string
      requires WantsCover(request, f)
    {
      "cover" + Extension(FileName(TemporaryCoverPath(request, id, f.cover.value.extension)))
    }

    /**
      * The book file is there, outside the directory it will be staged in, and neither it nor the
      * cover has a name that gets in the way. A converted book and a cover are written by the import.
      */
    predicate CanBeImported(request: Request, f: Findings, id: int, files: Files) {
      && id > 0
      && request.source != []
      && (!NeedsConversion(request, f) ==> request.source in files && !(storage.StagingDirectory(id) <= request.source))
      && (NeedsConversion(request, f) ==> ConversionDelivers(f))
      && (WantsCover(request, f) ==> f.cover.value.extension[|f.cover.value.extension| - 1] != '.')
      && (WantsCover(request, f) && !NeedsConversion(request, f) ==> FileName(request.source) != StagedCoverName(request, f, id))
    }

    /** The hash that the duplicate check of the repository looks for. */
    function EffectiveHash(request: Request, f: Findings): Text {
      if request.sha256.Some? then request.sha256.value else if f.sha256.Some? then f.sha256.value else []
    }

    predicate HasHash(rows: map<BookId, BookRow>, sha256: Text) {
      sha256 != [] && exists id :: id in rows && rows[id].sha256 == sha256
    }

    function IdFor(request: Request, t: Tables): BookId {
      if request.preReserved.Some? then request.preReserved.value else t.nextId
    }

    /** Why an import may end as it did. Nothing else keeps it from succeeding. */
    ghost predicate IsGrounded(request: Request, f: Findings, id: BookId, status: Status, files: Files,
                               rows: map<BookId, BookRow>, failed: bool, stopped: bool) {
      match status
      case Imported => true
      case UnsupportedFormat => f.format.None?
      case RejectedDuplicate => !IsAdmissible(request, f) || HasHash(rows, EffectiveHash(request, f))
      case Cancelled => stopped || ConverterStops(request, f)
      case Failed => failed || request.workingDirectory == [] || f.metadata.None?
                     || !CanBeImported(request, f, id, files) || id in rows
    }

    /** Everything before the first file is written; only reserved ids are used up. */
    method Examine(request: Request, f: Findings) returns (refusal: Option<Status>, id: BookId, ok: bool)
      requires db.saved == [] && CatalogueRuns.IsCatalogue(db.tables)
      modifies this`step, db`clock, db`tables, db`saved
      ensures db.saved == [] && CatalogueRuns.IsCatalogue(db.tables) && db.tables.books == old(db.tables.books)
      ensures old(db.clock) <= db.clock
      ensures refusal.Some? ==> ok && db.tables == old(db.tables) && IsGroundedRefusal(request, f, refusal.value)
      ensures ok && refusal.None? ==>
                && f.format.Some? && f.metadata.Some? && IsAdmissible(request, f)
                && db.tables == CatalogueRuns.Reserved(old(db.tables), 1)
                && id == IdFor(request, old(db.tables))
      ensures old(step) <= step
      ensures !ok ==> f.metadata.None? || ThrowsBetween(old(step), step) || db.FailsBetween(old(db.clock), db.clock)
      ensures refusal == Some(Cancelled) ==> StopsBetween(old(step), step)
    {
      refusal, id, ok := None, 0, true;
      var stop := Poll();
      if stop {
        refusal := Some(Cancelled);
        return;
      }
      ok := Call();
      if ok && f.format.None? {
        refusal := Some(UnsupportedFormat);
        return;
      }
      if !ok || f.metadata.None? {
        ok := false;
        return;
      }
      ok := Call();
      if !ok {
        return;
      }
      stop := Poll();
      if stop {
        refusal := Some(Cancelled);
        return;
      }
      if f.hasStrictDuplicate || (f.hasProbableDuplicate && !request.allowProbable) {
        refusal := Some(RejectedDuplicate);
        return;
      }
      // The id is reserved even when the caller has brought one.
      var reserved := db.ReserveIds(1);
      if reserved.None? {
        ok := false;
        return;
      }
      id := if request.preReserved.Some? then request.preReserved.value else reserved.value[0];
      ok := Call();
    }

    /** PlanImportConversion, the converter, and ResolveImportConversion. */
    method Convert(request: Request, f: Findings, id: int) returns (source: Source, converted: Option<Path>)
      requires f.format.Some?
      modifies this`step, storage.fs`files
      ensures converted == None || converted == Some(ConvertedPath(request, id))
      ensures storage.fs.files == if converted.Some? && f.convertedOutput.Some?
                                    then old(storage.fs.files)[converted.value := f.convertedOutput.value] else old(storage.fs.files)
      ensures source.Refuse? ==> source.status == if f.canConvert && f.conversion == ConversionCancelled then Cancelled else Failed
      ensures source.Store? ==> (converted.Some? <==> f.format.value == Fb2 && request.forceEpub)
      ensures source.Store? ==>
                if converted.Some? then f.convertedOutput.Some? && source == Store(converted.value, Epub)
                else source == Store(request.source, f.format.value)
      ensures old(step) <= step && (source.Throw? ==> ThrowsBetween(old(step), step))
      ensures source.Refuse? ==> NeedsConversion(request, f) && !ConversionDelivers(f)
    {
      converted := None;
      if f.format.value != Fb2 || !request.forceEpub {
        return Store(request.source, f.format.value), None;
      }
      if !f.canConvert {
        return Refuse(Failed), None;
      }
      var reported := Call();
      var returned := Call();
      if !reported || !returned {
        return Throw, None;
      }
      if f.convertedOutput.Some? {
        converted := Some(ConvertedPath(request, id));
        storage.fs.Place(converted.value, f.convertedOutput.value);
      }
      match f.conversion
      case ConversionCancelled => source := Refuse(Cancelled);
      case ConversionFailed => source := Refuse(Failed);
      case Converted => source := if converted.Some? then Store(converted.value, Epub) else Refuse(Failed);
    }

    /** The file has the image the parser found, if nothing failed when it was written. */
    ghost predicate HoldsCover(f: Findings, files: Files, path: Path, worked: bool) {
      f.cover.Some? && (worked ==> path in files && files[path] == f.cover.value.content)
    }

    /** The cover goes to a temporary file first; whether all of it was written is not checked. */
    method WriteCover(request: Request, f: Findings, id: int) returns (cover: Option<Path>, ok: bool)
      modifies this`step, storage.fs`clock, storage.fs`files
      ensures cover.Some? ==> request.workingDirectory <= cover.value && |cover.value| == |request.workingDirectory| + 2
                              && ChangedOnlyAt(old(storage.fs.files), storage.fs.files, {cover.value})
      ensures cover.None? ==> storage.fs.files == old(storage.fs.files)
      ensures old(step) <= step && old(storage.fs.clock) <= storage.fs.clock
      ensures ok ==> (cover.Some? <==> WantsCover(request, f))
      ensures cover.Some? ==> WantsCover(request, f) && cover.value == TemporaryCoverPath(request, id, f.cover.value.extension)
      ensures !ok ==> ThrowsBetween(old(step), step) || storage.fs.FailsBetween(old(storage.fs.clock), storage.fs.clock)
      ensures cover.Some? ==> HoldsCover(f, storage.fs.files, cover.value, !storage.fs.FailsBetween(old(storage.fs.clock), storage.fs.clock))
    {
      if !request.importCovers || f.cover.None? || f.cover.value.extension == "" || f.cover.value.content == [] {
        return None, true;
      }
      var processed := Call();
      var made := storage.fs.Attempt();
      var opened_ := storage.fs.Attempt();
      if !processed || !made || !opened_ {
        return None, false;
      }
      var path := TemporaryCoverPath(request, id, f.cover.value.extension);
      var written := storage.fs.Write(path, f.cover.value.content);
      return Some(path), true;
    }

    /** The converted book and the temporary cover are removed as far as possible. */
    method RemoveTemporaries(t: Traces, ghost id: int, ghost request: Request)
      requires AreTraces(t, id, request)
      modifies storage.fs`removals, storage.fs`files
      ensures old(storage.fs.removals) <= storage.fs.removals
      ensures IsPartOf(storage.fs.files, old(storage.fs.files))
      ensures ChangedOnlyBelow(old(storage.fs.files), storage.fs.files, request.workingDirectory)
      ensures storage.fs.RemovalsWorked(old(storage.fs.removals), storage.fs.removals) ==>
                (t.converted.Some? ==> t.converted.value !in storage.fs.files) && (t.cover.Some? ==> t.cover.value !in storage.fs.files)
    {
      ghost var first := storage.fs.removals;
      if t.converted.Some? {
        storage.fs.RemoveAll(t.converted.value);
      }
      ghost var second := storage.fs.removals;
      if t.cover.Some? {
        storage.fs.RemoveAll(t.cover.value);
      }
      assert storage.fs.RemovalsWorked(first, storage.fs.removals) ==>
          (t.converted.Some? ==> !storage.fs.stuck(first)) && (t.cover.Some? ==> !storage.fs.stuck(second));
    }

    /** RollbackImport and the removal of the temporary files. */
    method CleanUp(t: Traces, ghost id: int, ghost request: Request)
      requires AreTraces(t, id, request)
      modifies storage.fs`removals, storage.fs`files
      ensures old(storage.fs.removals) <= storage.fs.removals
      ensures IsPartOf(storage.fs.files, old(storage.fs.files))
      ensures ChangedOnlyOwn(old(storage.fs.files), storage.fs.files, id, request)
      ensures storage.fs.RemovalsWorked(old(storage.fs.removals), storage.fs.removals) ==>
                AreGone(storage.fs.files, TracePaths(t))
    {
      if t.prepared.Some? {
        storage.RollbackImport(t.prepared.value);
      }
      RemoveTemporaries(t, id, request);
    }

    /** The book file can be staged faithfully: nothing the import writes on the way is its source. */
    predicate IsReadable(request: Request, t: Traces, id: nat) {
      && request.source != []
      && (t.converted.None? ==> !(storage.StagingDirectory(id) <= request.source) && t.cover != Some(request.source))
      && (t.converted.None? && t.cover.Some? ==> !("cover." <= FileName(request.source)))
    }

    /** The content that the managed book file should have. */
    ghost predicate HoldsBook(request: Request, f: Findings, id: nat, t: Traces, before: Files, after: Files, path: Path)
      requires f.format.Some?
    {
      IsReadable(request, t, id) ==>
        && path in after
        && (t.converted.None? ==> request.source in before
                                  && after[path] == if f.format.value == Fb2 && !request.forceEpub
                                                    then storage.compress(before[request.source]) else before[request.source])
        && (t.converted.Some? ==> f.convertedOutput.Some? && after[path] == f.convertedOutput.value)
    }

    ghost predicate IsPlannedImport(request: Request, f: Findings, id: nat, t: Traces)
      requires f.format.Some?
    {
      var format := if t.converted.Some? then Epub else f.format.value;
      && t.prepared.Some?
      && t.prepared.value.relativeBook == RelativeBookPath(id, format, EncodingOf(format, request.forceEpub))
      && t.prepared.value.stagedCover.Some? == t.cover.Some? == WantsCover(request, f)
      && t.converted.Some? == NeedsConversion(request, f)
    }

    /** The source to be staged holds what it held at the start, or what the converter produced. */
    ghost predicate HoldsSource(request: Request, f: Findings, source: Source, t: Traces, before: Files, after: Files)
      requires source.Store? && f.format.Some?
    {
      && (t.cover.Some? <==> WantsCover(request, f))
      && (t.converted.Some? <==> NeedsConversion(request, f))
      && (t.converted.None? ==>
            && source == Store(request.source, f.format.value)
            && (t.cover != Some(request.source) && request.source in after ==>
                  request.source in before && after[request.source] == before[request.source]))
      && (t.converted.Some? ==>
            && source == Store(t.converted.value, Epub)
            && request.workingDirectory < t.converted.value && !("cover." <= FileName(t.converted.value))
            && f.convertedOutput.Some?
            && t.converted.value in after && after[t.converted.value] == f.convertedOutput.value)
    }

    predicate IsGroundedRefusalOfSource(request: Request, f: Findings, status: Status, stopped: bool) {
      match status
      case Cancelled => stopped || ConverterStops(request, f)
      case Failed => NeedsConversion(request, f) && !ConversionDelivers(f)
      case _ => false
    }

    /** The files to be staged: the source or its conversion, and the cover if one is wanted. */
    predicate AreAtHand(request: Request, f: Findings, id: int, source: Source, t: Traces, before: Files, after: Files)
      requires source.Store?
    {
      && (t.converted.Some? <==> NeedsConversion(request, f))
      && (t.converted.Some? ==> t.converted.value == ConvertedPath(request, id) && source.path == t.converted.value && source.path in after)
      && (t.converted.None? ==> source.path == request.source && (request.source in before ==> request.source in after))
      && (t.cover.Some? <==> WantsCover(request, f))
      && (t.cover.Some? ==> t.cover.value == TemporaryCoverPath(request, id, f.cover.value.extension) && t.cover.value in after)
    }

    lemma ConvertedNameIsNoCover(request: Request, id: int)
      ensures ConvertedPath(request, id) != [] && !("cover." <= FileName(ConvertedPath(request, id)))
    {
      assert FileName(ConvertedPath(request, id))[2] == 'n' && "cover."[2] == 'v';
    }

    /** Conversion and cover, up to the poll before the storage is prepared. */
    method PrepareSources(request: Request, f: Findings, id: BookId) returns (source: Source, t: Traces)
      requires f.format.Some?
      modifies this`step, storage.fs`clock, storage.fs`files
      ensures t.prepared.None? && AreTraces(t, id, request)
      ensures ChangedOnlyBelow(old(storage.fs.files), storage.fs.files, request.workingDirectory)
      ensures NothingNewBut(old(storage.fs.files), storage.fs.files, TracePaths(t))
      ensures source.Store? ==> HoldsSource(request, f, source, t, old(storage.fs.files), storage.fs.files)
      ensures source.Store? && t.cover.Some? ==>
                HoldsCover(f, storage.fs.files, t.cover.value, !storage.fs.FailsBetween(old(storage.fs.clock), storage.fs.clock))
      ensures old(step) <= step && old(storage.fs.clock) <= storage.fs.clock
      ensures source.Throw? ==> ThrowsBetween(old(step), step) || storage.fs.FailsBetween(old(storage.fs.clock), storage.fs.clock)
      ensures source.Refuse? ==> IsGroundedRefusalOfSource(request, f, source.status, StopsBetween(old(step), step))
      ensures source.Store? && !ThrowsBetween(old(step), step) && !storage.fs.FailsBetween(old(storage.fs.clock), storage.fs.clock) ==>
                AreAtHand(request, f, id, source, t, old(storage.fs.files), storage.fs.files)
    {
      var converted, cover;
      source, converted := Convert(request, f, id);
      t := Traces(None, converted, None);
      ConvertedNameIsNoCover(request, id);
      if !source.Store? {
        return;
      }
      var ok;
      cover, ok := WriteCover(request, f, id);
      t := Traces(None, converted, cover);
      if !ok {
        return Throw, t;
      }
      var stop := Poll();
      if stop {
        return Refuse(Cancelled), t;
      }
      ok := Call();
      if !ok {
        source := Throw;
      }
    }

    /** PrepareImport on the sources at hand. */
    method StageSources(request: Request, f: Findings, id: BookId, source: Source, t0: Traces, ghost before: Files, ghost coverWorked: bool)
      returns (t: Traces)
      requires f.format.Some? && source.Store? && AreApart(request.workingDirectory, storage.stagingRoot)
      requires t0.prepared.None? && AreTraces(t0, id, request)
      requires ChangedOnlyBelow(before, storage.fs.files, request.workingDirectory)
      requires HoldsSource(request, f, source, t0, before, storage.fs.files)
      requires t0.cover.Some? ==> HoldsCover(f, storage.fs.files, t0.cover.value, coverWorked)
      modifies storage`rootsEnsured, storage.fs`clock, storage.fs`removals, storage.fs`files
      ensures t == t0.(prepared := t.prepared) && AreTraces(t, id, request)
      ensures old(storage.fs.removals) <= storage.fs.removals && old(storage.fs.clock) <= storage.fs.clock
      ensures ChangedOnlyOwn(before, storage.fs.files, id, request)
      ensures storage.fs.RemovalsWorked(old(storage.fs.removals), storage.fs.removals)
              && NothingNewBut(before, old(storage.fs.files), TracePaths(t0)) ==>
                NothingNewBut(before, storage.fs.files, TracePaths(t))
      ensures t.prepared.Some? ==> id > 0 && IsPlannedImport(request, f, id, t)
                                   && HoldsBook(request, f, id, t, before, storage.fs.files, t.prepared.value.stagedBook)
                                   && HoldsStagedCover(f, t, storage.fs.files, coverWorked)
      ensures AreAtHand(request, f, id, source, t0, before, old(storage.fs.files)) && CanBeImported(request, f, id, before) ==>
                storage.fs.FailsBetween(old(storage.fs.clock), storage.fs.clock) || IsStagedImport(t, storage.fs.files)
    {
      ghost var sourced := storage.fs.files;
      ghost var isReady := AreAtHand(request, f, id, source, t0, before, sourced) && CanBeImported(request, f, id, before);
      var plan := StoragePlan(id, source.format, EncodingOf(source.format, request.forceEpub), source.path, t0.cover);
      if isReady {
        SourcesCanBeStaged(request, f, plan, source, t0, before, sourced);
      }
      var prepared := storage.PrepareImport(plan);
      t := t0.(prepared := prepared);
      PreparedKeeps(request, id, t0, t, before, sourced, storage.fs.files);
      if prepared.Some? {
        StagedBookIsRight(request, f, plan, t, before, sourced, storage.fs.files);
        StagedCoverIsRight(request, f, plan, t, sourced, storage.fs.files, coverWorked);
        if isReady {
          AllIsStaged(request, f, plan, source, t0, t, before, sourced, storage.fs.files);
        }
      }
    }

    ghost predicate HoldsStagedCover(f: Findings, t: Traces, files: Files, worked: bool) {
      t.prepared.Some? && t.prepared.value.stagedCover.Some? ==> HoldsCover(f, files, t.prepared.value.stagedCover.value, worked)
    }

    lemma StagedCoverIsRight(request: Request, f: Findings, plan: StoragePlan, t: Traces, sourced: Files, after: Files, worked: bool)
      requires plan.bookId > 0 && AreApart(request.workingDirectory, storage.stagingRoot) && plan.coverSource == t.cover
      requires t.prepared.Some? && storage.IsPlannedFor(plan, t.prepared.value) && AreTraces(t, plan.bookId, request)
      requires storage.IsStaged(plan, t.prepared.value, sourced, after)
      requires t.cover.Some? ==> HoldsCover(f, sourced, t.cover.value, worked)
      ensures HoldsStagedCover(f, t, after, worked)
    {
      if t.cover.Some? {
        ApartIsInherited(request.workingDirectory, storage.stagingRoot, t.cover.value, storage.StagingDirectory(plan.bookId));
      }
    }

    ghost predicate IsStagedImport(t: Traces, files: Files) {
      t.prepared.Some? && storage.AreAllStaged(t.prepared.value, files)
    }

    /** The sources, their staging, and the poll before the row is written. */
    method PrepareFiles(request: Request, f: Findings, id: BookId) returns (refusal: Option<Status>, ok: bool, t: Traces)
      requires f.format.Some? && AreApart(request.workingDirectory, storage.stagingRoot)
      modifies this`step, storage`rootsEnsured, storage.fs`clock, storage.fs`removals, storage.fs`files
      ensures old(storage.fs.removals) <= storage.fs.removals && AreTraces(t, id, request)
      ensures ChangedOnlyOwn(old(storage.fs.files), storage.fs.files, id, request)
      ensures storage.fs.RemovalsWorked(old(storage.fs.removals), storage.fs.removals) ==>
                NothingNewBut(old(storage.fs.files), storage.fs.files, TracePaths(t))
      ensures refusal.Some? ==> ok && IsGroundedRefusalOfSource(request, f, refusal.value, StopsBetween(old(step), step))
      ensures old(step) <= step && old(storage.fs.clock) <= storage.fs.clock
      ensures CanBeImported(request, f, id, old(storage.fs.files)) && refusal.None? && !(ok && IsStagedImport(t, storage.fs.files)) ==>
                ThrowsBetween(old(step), step) || storage.fs.FailsBetween(old(storage.fs.clock), storage.fs.clock)
      ensures ok && refusal.None? ==> id > 0 && IsPlannedImport(request, f, id, t)
                                      && HoldsBook(request, f, id, t, old(storage.fs.files), storage.fs.files, t.prepared.value.stagedBook)
                                      && HoldsStagedCover(f, t, storage.fs.files, !storage.fs.FailsBetween(old(storage.fs.clock), storage.fs.clock))
    {
      var source, traces;
      source, traces := PrepareSources(request, f, id);
      if !source.Store? {
        return if source.Refuse? then Some(source.status) else None, source.Refuse?, traces;
      }
      t := StageSources(request, f, id, source, traces, old(storage.fs.files),
                        !storage.fs.FailsBetween(old(storage.fs.clock), storage.fs.clock));
      if t.prepared.None? {
        return None, false, t;
      }
      var stop := Poll();
      return if stop then Some(Cancelled) else None, true, t;
    }

    /** The temporary cover has a name with an extension. */
    lemma CoverHasExtension(request: Request, f: Findings, id: int)
      requires WantsCover(request, f) && f.cover.value.extension[|f.cover.value.extension| - 1] != '.'
      ensures |Extension(FileName(TemporaryCoverPath(request, id, f.cover.value.extension)))| > 1
    {
      var e := f.cover.value.extension;
      var stem := "cover-" + Signed(id);
      var name := FileName(TemporaryCoverPath(request, id, e));
      assert name == stem + (if e[0] == '.' then "" else ".") + e;
      assert name[|stem|] == '.' && name[|name| - 1] == e[|e| - 1];
      LastDotIsLast(name, |stem|);
    }

    lemma SourcesCanBeStaged(request: Request, f: Findings, plan: StoragePlan, source: Source, t: Traces, before: Files, sourced: Files)
      requires AreApart(request.workingDirectory, storage.stagingRoot) && source.Store?
      requires plan.source == source.path && plan.coverSource == t.cover
      requires AreAtHand(request, f, plan.bookId, source, t, before, sourced) && CanBeImported(request, f, plan.bookId, before)
      ensures storage.CanBeStaged(plan, sourced)
    {
      if t.converted.Some? {
        ApartIsInherited(request.workingDirectory, storage.stagingRoot, plan.source, storage.StagingDirectory(plan.bookId));
      }
      if t.cover.Some? {
        CoverHasExtension(request, f, plan.bookId);
        ApartIsInherited(request.workingDirectory, storage.stagingRoot, t.cover.value, storage.StagingDirectory(plan.bookId));
      }
    }

    lemma AllIsStaged(request: Request, f: Findings, plan: StoragePlan, source: Source, t0: Traces, t: Traces, before: Files, sourced: Files, after: Files)
      requires AreApart(request.workingDirectory, storage.stagingRoot) && source.Store?
      requires plan.source == source.path && plan.coverSource == t0.cover && t == t0.(prepared := t.prepared)
      requires AreAtHand(request, f, plan.bookId, source, t0, before, sourced) && CanBeImported(request, f, plan.bookId, before)
      requires t.prepared.Some? && storage.IsPlannedFor(plan, t.prepared.value)
      requires storage.IsStaged(plan, t.prepared.value, sourced, after)
      ensures storage.AreAllStaged(t.prepared.value, after)
    {
      SourcesCanBeStaged(request, f, plan, source, t0, before, sourced);
      if t.cover.Some? {
        NamesDiffer(request, f, plan.bookId, source);
      }
    }

    /** The book and the cover are staged under different names. */
    lemma NamesDiffer(request: Request, f: Findings, id: int, source: Source)
      requires WantsCover(request, f) && source.Store? && id > 0
      requires if NeedsConversion(request, f) then source.path == ConvertedPath(request, id)
               else request.source != [] && source.path == request.source && FileName(request.source) != StagedCoverName(request, f, id)
      ensures source.path != [] && FileName(source.path) != StagedCoverName(request, f, id)
    {
      if NeedsConversion(request, f) {
        ConvertedIsNoCover(Signed(id) + ".epub", Extension(FileName(TemporaryCoverPath(request, id, f.cover.value.extension))));
        assert FileName(ConvertedPath(request, id)) == "converted-" + (Signed(id) + ".epub");
      }
    }

    lemma ConvertedIsNoCover(rest: string, extension: string)
      ensures "converted-" + rest != "cover" + extension
    {
      assert ("converted-" + rest)[2] == 'n';
      assert ("cover" + extension)[2] == 'v';
    }

    lemma PreparedKeeps(request: Request, id: BookId, t0: Traces, t: Traces, before: Files, sourced: Files, after: Files)
      requires t == t0.(prepared := t.prepared) && t0.prepared.None?
      requires ChangedOnlyBelow(before, sourced, request.workingDirectory)
      requires id <= 0 ==> sourced == after
      requires id > 0 ==> ChangedOnlyBelow(sourced, after, storage.StagingDirectory(id))
      ensures ChangedOnlyOwn(before, after, id, request)
      ensures NothingNewBut(before, sourced, TracePaths(t0))
              && NothingNewBut(sourced, after, if t.prepared.Some? then storage.StagedPaths(t.prepared.value) else {})
              ==> NothingNewBut(before, after, TracePaths(t))
    {
    }

    lemma StagedBookIsRight(request: Request, f: Findings, plan: StoragePlan, t: Traces, before: Files, sourced: Files, after: Files)
      requires plan.bookId > 0 && f.format.Some? && AreApart(request.workingDirectory, storage.stagingRoot)
      requires HoldsSource(request, f, Store(plan.source, plan.format), t, before, sourced)
      requires plan.encoding == EncodingOf(plan.format, request.forceEpub) && plan.coverSource == t.cover
      requires t.prepared.Some? && storage.IsPlannedFor(plan, t.prepared.value)
      requires storage.IsStaged(plan, t.prepared.value, sourced, after)
      ensures IsPlannedImport(request, f, plan.bookId, t)
      ensures HoldsBook(request, f, plan.bookId, t, before, after, t.prepared.value.stagedBook)
    {
      if t.converted.Some? {
        ApartIsInherited(request.workingDirectory, storage.stagingRoot, plan.source, storage.StagingDirectory(plan.bookId));
      }
    }

    /** The record that the repository is asked to add. */
    function NewBook(request: Request, f: Findings, id: BookId, t: Traces): Book
      requires f.format.Some? && f.metadata.Some? && t.prepared.Some?
    {
      var p := t.prepared.value;
      var format := if t.converted.Some? then Epub else f.format.value;
      Book(id, f.metadata.value, FormatText(format), pathText(p.relativeBook),
           if p.relativeCover.Some? then Some(pathText(p.relativeCover.value)) else None,
           EffectiveHash(request, f))
    }

    /** The staged file is measured, and the row is written; `outcome` is set for a rejection. */
    method Publish(request: Request, f: Findings, id: BookId, t: Traces) returns (added: bool, outcome: Option<Status>)
      requires id > 0 && f.format.Some? && f.metadata.Some? && AreTraces(t, id, request) && IsPlannedImport(request, f, id, t)
      requires db.saved == [] && CatalogueRuns.IsCatalogue(db.tables)
      modifies this`step, db`clock, db`tables, db`saved
      ensures db.saved == [] && CatalogueRuns.IsCatalogue(db.tables) && old(db.clock) <= db.clock
      ensures !added ==> db.tables == old(db.tables)
      ensures added ==> outcome.None? && id !in old(db.tables.books)
                        && db.tables == CatalogueRuns.Inserted(db.tokens, old(db.tables), NewBook(request, f, id, t))
      ensures added ==> IsWithRow(old(db.tables.books), db.tables.books, id) && ShowsImport(db.tables.books[id], request, f, t)
      ensures outcome.Some? ==> outcome.value == RejectedDuplicate && HasHash(old(db.tables.books), EffectiveHash(request, f))
      ensures old(step) <= step
      ensures !added && outcome.None? ==>
                ThrowsBetween(old(step), step) || db.FailsBetween(old(db.clock), db.clock)
                || t.prepared.value.stagedBook !in storage.fs.files || id in old(db.tables.books)
    {
      added, outcome := false, None;
      var measured := Call();
      var reported := Call();
      if !measured || t.prepared.value.stagedBook !in storage.fs.files || !reported {
        return;
      }
      var book := NewBook(request, f, id, t);
      var r, faulted := db.AddBook(CatalogueRuns.BatchEntry(book, false));
      match r
      case Imported(_) =>
        added := true;
        CatalogueRuns.InsertedNames(db.tokens, old(db.tables), book);
        CatalogueRuns.NewRow(old(db.tables.books), id, RowOf(book));
      case RejectedDuplicate(other) =>
        outcome := Some(RejectedDuplicate);
        assert other in CatalogueRuns.HashMatches(old(db.tables), book.sha256);
      case Failed =>
    }

    /** CommitImport, seen from the import: only its own places change. */
    method CommitFiles(p: Prepared, ghost request: Request) returns (ok: bool)
      requires storage.IsPlanned(p) && AreApart(storage.libraryRoot, storage.stagingRoot)
      modifies storage.fs`clock, storage.fs`removals, storage.fs`files
      ensures old(storage.fs.removals) <= storage.fs.removals
      ensures ChangedOnlyOwn(old(storage.fs.files), storage.fs.files, p.bookId, request)
      ensures NothingNewBut(old(storage.fs.files), storage.fs.files, storage.StagedPaths(p) + storage.FinalPaths(p))
      ensures ok ==> storage.AreDelivered(p, old(storage.fs.files), storage.fs.files)
      ensures ok && storage.fs.RemovalsWorked(old(storage.fs.removals), storage.fs.removals) ==>
                AreGone(storage.fs.files, storage.StagedPaths(p))
      ensures old(storage.fs.clock) <= storage.fs.clock
      ensures !ok && storage.AreAllStaged(p, old(storage.fs.files)) ==> storage.fs.FailsBetween(old(storage.fs.clock), storage.fs.clock)
    {
      var c := storage.CommitImport(p);
      storage.PlacesOfBook(p);
      OnlyOwnPlaces(request, p.bookId, storage.FinalPaths(p), old(storage.fs.files), storage.fs.files);
      return c == Committed;
    }

    lemma NotTemporary(request: Request, places: set<Path>)
      requires AreApart(request.workingDirectory, storage.libraryRoot)
      requires forall d :: d in places ==> storage.libraryRoot <= d
      ensures forall d :: d in places ==> !(request.workingDirectory <= d)
    {
    }

    lemma OnlyOwnPlaces(request: Request, id: nat, places: set<Path>, before: Files, after: Files)
      requires id > 0 && forall d :: d in places ==> storage.IsOwn(id, d)
      requires ChangedOnlyIn(before, after, storage.StagingDirectory(id), places)
      ensures ChangedOnlyOwn(before, after, id, request)
    {
    }

    /** CommitImport and the last steps of a successful import. */
    method Deliver(request: Request, id: BookId, t: Traces) returns (ok: bool)
      requires t.prepared.Some? && AreTraces(t, id, request)
      requires AreApart(storage.libraryRoot, storage.stagingRoot) && AreApart(request.workingDirectory, storage.libraryRoot)
      modifies this`step, storage.fs`clock, storage.fs`removals, storage.fs`files
      ensures old(storage.fs.removals) <= storage.fs.removals
      ensures ChangedOnlyOwn(old(storage.fs.files), storage.fs.files, id, request)
      ensures NothingNewBut(old(storage.fs.files), storage.fs.files, TracePaths(t))
      ensures ok ==> storage.AreDelivered(t.prepared.value, old(storage.fs.files), storage.fs.files)
      ensures ok && storage.fs.RemovalsWorked(old(storage.fs.removals), storage.fs.removals) ==>
                AreGone(storage.fs.files, TracePaths(t) - storage.FinalPaths(t.prepared.value))
      ensures old(step) <= step && old(storage.fs.clock) <= storage.fs.clock
      ensures !ok && storage.AreAllStaged(t.prepared.value, old(storage.fs.files)) ==>
                ThrowsBetween(old(step), step) || storage.fs.FailsBetween(old(storage.fs.clock), storage.fs.clock)
    {
      ok := Call();
      if !ok {
        return;
      }
      ok := CommitFiles(t.prepared.value, request);
      if !ok {
        return;
      }
      storage.PlacesOfBook(t.prepared.value);
      NotTemporary(request, storage.FinalPaths(t.prepared.value));
      RemoveTemporaries(t, id, request);
      ok := Call();
    }

    /** What a run that ended may leave behind: nothing, unless it imported the book. */
    function KeptPaths(r: Result, t: Traces): set<Path> {
      if r.status == Imported && t.prepared.Some? then storage.FinalPaths(t.prepared.value) else {}
    }

    /** What the catalogue shows of an imported book: its metadata, its managed places and its hash. */
    ghost predicate ShowsImport(row: BookRow, request: Request, f: Findings, t: Traces)
      requires f.format.Some? && f.metadata.Some? && t.prepared.Some?
    {
      var m, p := f.metadata.value, t.prepared.value;
      && row.title == m.title && row.normalizedTitle == NormalizeText(m.title) && row.language == m.language
      && row.series == m.series && row.description == m.description
      && row.format == FormatText(if NeedsConversion(request, f) then Epub else f.format.value)
      && row.managedPath == pathText(p.relativeBook)
      && (if WantsCover(request, f) && p.relativeCover.Some? then row.coverPath == Some(pathText(p.relativeCover.value))
          else row.coverPath.None?)
      && row.sha256 == (match request.sha256
                        case Some(given) => given
                        case None => if f.sha256.Some? then f.sha256.value else [])
    }

    /** The row and the files of a book that was imported. */
    ghost predicate IsImported(request: Request, f: Findings, id: BookId, t: Traces, before: Files, after: Files,
                               rowsBefore: map<BookId, BookRow>, rowsAfter: map<BookId, BookRow>, worked: bool) {
      && f.format.Some? && f.metadata.Some? && IsAdmissible(request, f) && id > 0 && id !in rowsBefore
      && IsPlannedImport(request, f, id, t)
      && IsWithRow(rowsBefore, rowsAfter, id) && ShowsImport(rowsAfter[id], request, f, t)
      && HoldsFinalFiles(request, f, id, t, before, after, worked)
    }

    /** Book and cover are at their final places, with the right content. */
    ghost predicate HoldsFinalFiles(request: Request, f: Findings, id: BookId, t: Traces, before: Files, after: Files, worked: bool)
      requires id > 0 && f.format.Some? && t.prepared.Some?
    {
      var p := t.prepared.value;
      && (forall d :: d in storage.FinalPaths(p) ==> d in after)
      && HoldsBook(request, f, id, t, before, after, p.finalBook)
      && (p.finalCover.Some? <==> WantsCover(request, f))
      && (p.finalCover.Some? ==> HoldsCover(f, after, p.finalCover.value, worked))
    }

    /**
      * Import atomicity. Whatever fails and wherever the user cancels: an imported result has
      * its row and its files, any other result has neither, if the removals worked. The only
      * exception is a database failure while the row is being taken back.
      */
    method Run(request: Request, f: Findings) returns (r: Result, ghost id: BookId, ghost t: Traces)
      requires IsReady()
      requires request.workingDirectory != [] ==>
                 AreApart(request.workingDirectory, storage.libraryRoot) && AreApart(request.workingDirectory, storage.stagingRoot)
      modifies this`step, db`clock, db`tables, db`saved
      modifies storage`rootsEnsured, storage.fs`clock, storage.fs`removals, storage.fs`files
      ensures IsReady()
      ensures r.importedId == if r.status == Imported then Some(id) else None
      ensures ChangedOnlyOwn(old(storage.fs.files), storage.fs.files, id, request)
      ensures r.status == Imported ==>
                IsImported(request, f, id, t, old(storage.fs.files), storage.fs.files, old(db.tables.books), db.tables.books,
                           !storage.fs.FailsBetween(old(storage.fs.clock), storage.fs.clock))
      ensures r.status == Imported ==> id == IdFor(request, old(db.tables))
      ensures IsGrounded(request, f, IdFor(request, old(db.tables)), r.status, old(storage.fs.files), old(db.tables.books),
                         SomethingFailed(old(step), old(db.clock), old(storage.fs.clock)), StopsBetween(old(step), step))
      ensures r.status != Imported && !r.catalogueKept ==> db.tables.books == old(db.tables.books)
      ensures r.catalogueKept ==> r.status == Failed && db.FailsBetween(old(db.clock), db.clock)
                                  && IsWithRow(old(db.tables.books), db.tables.books, id)
      ensures !r.catalogueKept && storage.fs.RemovalsWorked(old(storage.fs.removals), storage.fs.removals) ==>
                NothingNewBut(old(storage.fs.files), storage.fs.files, KeptPaths(r, t))
    {
      id, t := 0, NO_TRACES;
      if request.source == [] || request.workingDirectory == [] {
        return Result(Failed, None, false), id, t;
      }
      var refusal, bookId, ok := Examine(request, f);
      id := bookId;
      if !ok || refusal.Some? {
        return Result(if ok then refusal.value else Failed, None, false), id, t;
      }
      r, t := ImportExamined(request, f, bookId);
    }

    /** A readable, admissible book under a free id is imported if nothing fails and nobody cancels. */
    method RunUndisturbed(request: Request, f: Findings) returns (r: Result, ghost t: Traces)
      requires IsReady() && request.workingDirectory != []
      requires AreApart(request.workingDirectory, storage.libraryRoot) && AreApart(request.workingDirectory, storage.stagingRoot)
      requires f.format.Some? && f.metadata.Some? && IsAdmissible(request, f)
      requires CanBeImported(request, f, IdFor(request, db.tables), storage.fs.files)
      requires IdFor(request, db.tables) !in db.tables.books && !HasHash(db.tables.books, EffectiveHash(request, f))
      requires forall n :: !throws(n) && !isCancelled(n)
      requires forall n :: !db.fails(n) && !storage.fs.fails(n)
      modifies this`step, db`clock, db`tables, db`saved
      modifies storage`rootsEnsured, storage.fs`clock, storage.fs`removals, storage.fs`files
      ensures r == Result(Imported, Some(old(IdFor(request, db.tables))), false)
      ensures IsImported(request, f, r.importedId.value, t, old(storage.fs.files), storage.fs.files, old(db.tables.books), db.tables.books, true)
    {
      ghost var id;
      r, id, t := Run(request, f);
    }

    /** The part that writes files and rows. */
    method ImportExamined(request: Request, f: Findings, id: BookId) returns (r: Result, ghost t: Traces)
      requires IsReady() && f.format.Some? && f.metadata.Some? && IsAdmissible(request, f)
      requires AreApart(request.workingDirectory, storage.libraryRoot) && AreApart(request.workingDirectory, storage.stagingRoot)
      modifies this`step, db`clock, db`tables, db`saved
      modifies storage`rootsEnsured, storage.fs`clock, storage.fs`removals, storage.fs`files
      ensures IsReady() && old(db.clock) <= db.clock
      ensures r.importedId == if r.status == Imported then Some(id) else None
      ensures ChangedOnlyOwn(old(storage.fs.files), storage.fs.files, id, request)
      ensures r.status == Imported ==>
                IsImported(request, f, id, t, old(storage.fs.files), storage.fs.files, old(db.tables.books), db.tables.books,
                           !storage.fs.FailsBetween(old(storage.fs.clock), storage.fs.clock))
      ensures IsGrounded(request, f, id, r.status, old(storage.fs.files), old(db.tables.books),
                         SomethingFailed(old(step), old(db.clock), old(storage.fs.clock)), StopsBetween(old(step), step))
      ensures old(step) <= step && old(storage.fs.clock) <= storage.fs.clock
      ensures r.status != Imported && !r.catalogueKept ==> db.tables.books == old(db.tables.books)
      ensures r.catalogueKept ==> r.status == Failed && db.FailsBetween(old(db.clock), db.clock)
                                  && IsWithRow(old(db.tables.books), db.tables.books, id)
      ensures !r.catalogueKept && storage.fs.RemovalsWorked(old(storage.fs.removals), storage.fs.removals) ==>
                NothingNewBut(old(storage.fs.files), storage.fs.files, KeptPaths(r, t))
    {
      var end, traces := PrepareOrGiveUp(request, f, id);
      t := traces;
      if end.Some? {
        return Result(end.value, None, false), t;
      }
      ghost var prepared := storage.fs.files;
      ghost var coverWorked := !storage.fs.FailsBetween(old(storage.fs.clock), storage.fs.clock);
      r := WriteAndDeliver(request, f, id, traces);
      EndIsClean(old(storage.fs.files), prepared, storage.fs.files, TracePaths(t), KeptPaths(r, t));
      if r.status == Imported {
        DeliveredIsRight(request, f, id, t, old(storage.fs.files), prepared, storage.fs.files, coverWorked);
      }
    }

    /** Staging, undone at once when it is refused or throws. */
    method PrepareOrGiveUp(request: Request, f: Findings, id: BookId) returns (end: Option<Status>, t: Traces)
      requires f.format.Some? && AreApart(request.workingDirectory, storage.stagingRoot)
      modifies this`step, storage`rootsEnsured, storage.fs`clock, storage.fs`removals, storage.fs`files
      ensures old(storage.fs.removals) <= storage.fs.removals && AreTraces(t, id, request)
      ensures ChangedOnlyOwn(old(storage.fs.files), storage.fs.files, id, request)
      ensures storage.fs.RemovalsWorked(old(storage.fs.removals), storage.fs.removals) ==>
                NothingNewBut(old(storage.fs.files), storage.fs.files, if end.Some? then {} else TracePaths(t))
      ensures old(step) <= step && old(storage.fs.clock) <= storage.fs.clock
      ensures end.Some? ==> end.value == Failed || end.value == Cancelled
      ensures end == Some(Cancelled) ==> StopsBetween(old(step), step) || ConverterStops(request, f)
      ensures CanBeImported(request, f, id, old(storage.fs.files))
              && (end == Some(Failed) || (end.None? && !IsStagedImport(t, storage.fs.files))) ==>
                ThrowsBetween(old(step), step) || storage.fs.FailsBetween(old(storage.fs.clock), storage.fs.clock)
      ensures end.None? ==> id > 0 && IsPlannedImport(request, f, id, t)
                            && HoldsBook(request, f, id, t, old(storage.fs.files), storage.fs.files, t.prepared.value.stagedBook)
                            && HoldsStagedCover(f, t, storage.fs.files, !storage.fs.FailsBetween(old(storage.fs.clock), storage.fs.clock))
    {
      var refusal, ok;
      refusal, ok, t := PrepareFiles(request, f, id);
      if ok && refusal.None? {
        return None, t;
      }
      CleanUp(t, id, request);
      end := if ok then refusal else Some(Failed);
    }

    /** What was staged right and delivered is right at its final places. */
    lemma DeliveredIsRight(request: Request, f: Findings, id: BookId, t: Traces, before: Files, prepared: Files, after: Files, worked: bool)
      requires id > 0 && f.format.Some? && IsPlannedImport(request, f, id, t) && AreTraces(t, id, request)
      requires HoldsBook(request, f, id, t, before, prepared, t.prepared.value.stagedBook)
      requires HoldsStagedCover(f, t, prepared, worked) && storage.AreDelivered(t.prepared.value, prepared, after)
      ensures HoldsFinalFiles(request, f, id, t, before, after, worked)
    {
    }

    lemma EndIsClean(before: Files, prepared: Files, after: Files, traces: set<Path>, kept: set<Path>)
      ensures NothingNewBut(before, prepared, traces) && NothingNewBut(prepared, after, traces) && AreGone(after, traces - kept)
              ==> NothingNewBut(before, after, kept)
    {
    }

    /** The files after the row was dealt with: only own places have changed, and what is not kept is gone. */
    ghost predicate FilesFollowResult(request: Request, id: BookId, t: Traces, r: Result, before: Files, after: Files, removalsWorked: bool) {
      && ChangedOnlyOwn(before, after, id, request)
      && NothingNewBut(before, after, TracePaths(t))
      && (!r.catalogueKept && removalsWorked ==> AreGone(after, TracePaths(t) - KeptPaths(r, t)))
    }

    /** The part after staging, with the handlers for a late duplicate and for exceptions. */
    method WriteAndDeliver(request: Request, f: Findings, id: BookId, t: Traces) returns (r: Result)
      requires IsReady() && id > 0 && f.format.Some? && f.metadata.Some?
      requires AreApart(request.workingDirectory, storage.libraryRoot)
      requires AreTraces(t, id, request) && IsPlannedImport(request, f, id, t)
      modifies this`step, db`clock, db`tables, db`saved, storage.fs`clock, storage.fs`removals, storage.fs`files
      ensures IsReady() && old(storage.fs.removals) <= storage.fs.removals && old(db.clock) <= db.clock
      ensures r.importedId == if r.status == Imported then Some(id) else None
      ensures r.status == Imported ==>
                && IsWithRow(old(db.tables.books), db.tables.books, id) && ShowsImport(db.tables.books[id], request, f, t)
                && storage.AreDelivered(t.prepared.value, old(storage.fs.files), storage.fs.files)
      ensures r.status != Imported && !r.catalogueKept ==> db.tables.books == old(db.tables.books)
      ensures r.catalogueKept ==> r.status == Failed && db.FailsBetween(old(db.clock), db.clock)
                                  && IsWithRow(old(db.tables.books), db.tables.books, id)
      ensures old(step) <= step && old(storage.fs.clock) <= storage.fs.clock
      ensures r.status == Imported || r.status == Failed || r.status == RejectedDuplicate
      ensures r.status == RejectedDuplicate ==> HasHash(old(db.tables.books), EffectiveHash(request, f))
      ensures r.status == Failed && storage.AreAllStaged(t.prepared.value, old(storage.fs.files)) && id !in old(db.tables.books) ==>
                SomethingFailed(old(step), old(db.clock), old(storage.fs.clock))
      ensures FilesFollowResult(request, id, t, r, old(storage.fs.files), storage.fs.files,
                                storage.fs.RemovalsWorked(old(storage.fs.removals), storage.fs.removals))
    {
      var added, outcome := Publish(request, f, id, t);
      if outcome.Some? {
        r := RejectLate(id, t, request);
        return;
      }
      r := DeliverOrCompensate(request, f, id, t, added, old(db.tables));
    }

    /** Another import has added the hash in the meantime: only files have to be taken back. */
    method RejectLate(ghost id: BookId, t: Traces, ghost request: Request) returns (r: Result)
      requires AreTraces(t, id, request)
      modifies storage.fs`removals, storage.fs`files
      ensures r == Result(RejectedDuplicate, None, false)
      ensures old(storage.fs.removals) <= storage.fs.removals
      ensures FilesFollowResult(request, id, t, r, old(storage.fs.files), storage.fs.files,
                                storage.fs.RemovalsWorked(old(storage.fs.removals), storage.fs.removals))
    {
      CleanUp(t, id, request);
      r := Result(RejectedDuplicate, None, false);
    }

    /** The files follow the row; if they do not arrive, both are taken back. */
    method DeliverOrCompensate(request: Request, f: Findings, id: BookId, t: Traces, added: bool, ghost before: Tables) returns (r: Result)
      requires IsReady() && f.format.Some? && f.metadata.Some? && t.prepared.Some? && AreTraces(t, id, request)
      requires AreApart(request.workingDirectory, storage.libraryRoot)
      requires added ==> id > 0 && id !in before.books && CatalogueRuns.IsCatalogue(before)
                         && db.tables == CatalogueRuns.Inserted(db.tokens, before, NewBook(request, f, id, t))
      requires !added ==> db.tables == before
      modifies this`step, db`clock, db`tables, db`saved, storage.fs`clock, storage.fs`removals, storage.fs`files
      ensures IsReady() && old(storage.fs.removals) <= storage.fs.removals && old(db.clock) <= db.clock
      ensures r.status == Imported || r.status == Failed
      ensures r.importedId == if r.status == Imported then Some(id) else None
      ensures r.status == Imported ==> added && !r.catalogueKept && db.tables == old(db.tables)
                                       && storage.AreDelivered(t.prepared.value, old(storage.fs.files), storage.fs.files)
      ensures r.catalogueKept ==> added && r.status == Failed && db.tables == old(db.tables) && db.FailsBetween(old(db.clock), db.clock)
      ensures r.status != Imported && !r.catalogueKept ==> db.tables.books == before.books
      ensures old(step) <= step && old(storage.fs.clock) <= storage.fs.clock
      ensures added && r.status == Failed && storage.AreAllStaged(t.prepared.value, old(storage.fs.files)) ==>
                ThrowsBetween(old(step), step) || storage.fs.FailsBetween(old(storage.fs.clock), storage.fs.clock)
      ensures FilesFollowResult(request, id, t, r, old(storage.fs.files), storage.fs.files,
                                storage.fs.RemovalsWorked(old(storage.fs.removals), storage.fs.removals))
    {
      if added {
        var delivered := Deliver(request, id, t);
        if delivered {
          return Result(Imported, Some(id), false);
        }
      }
      var kept := Compensate(request, f, id, t, added, before);
      return Result(Failed, None, kept);
    }

    /** The handler for exceptions: the row first, and the files only once the row is gone. */
    method Compensate(request: Request, f: Findings, id: BookId, t: Traces, added: bool, ghost before: Tables) returns (kept: bool)
      requires IsReady() && f.format.Some? && f.metadata.Some? && t.prepared.Some? && AreTraces(t, id, request)
      requires added ==> id > 0 && id !in before.books && CatalogueRuns.IsCatalogue(before)
                         && db.tables == CatalogueRuns.Inserted(db.tokens, before, NewBook(request, f, id, t))
      requires !added ==> db.tables == before
      modifies db`clock, db`tables, db`saved, storage.fs`removals, storage.fs`files
      ensures IsReady() && old(storage.fs.removals) <= storage.fs.removals && old(db.clock) <= db.clock
      ensures kept ==> added && db.tables == old(db.tables) && db.FailsBetween(old(db.clock), db.clock)
      ensures !kept ==> db.tables.books == before.books
      ensures ChangedOnlyOwn(old(storage.fs.files), storage.fs.files, id, request)
      ensures IsPartOf(storage.fs.files, old(storage.fs.files))
      ensures !kept && storage.fs.RemovalsWorked(old(storage.fs.removals), storage.fs.removals) ==>
                AreGone(storage.fs.files, TracePaths(t))
    {
      if added {
        AddedThenRemoved(db.tokens, before, NewBook(request, f, id, t));
        var removed := db.Remove(id);
        if !removed {
          return true;
        }
      }
      CleanUp(t, id, request);
      return false;
    }

    /** An import never touches the managed files of another book. */
    lemma OtherBooksKeepTheirFiles(request: Request, id: BookId, other: nat, format: BookFormat, encoding: StorageEncoding,
                                   extension: string, before: Files, after: Files)
      requires ChangedOnlyOwn(before, after, id, request) && other != id
      requires AreApart(storage.libraryRoot, storage.stagingRoot) && AreApart(request.workingDirectory, storage.libraryRoot)
      ensures forall p :: p == storage.libraryRoot + RelativeBookPath(other, format, encoding)
                          || p == storage.libraryRoot + RelativeCoverPath(other, extension) ==>
                (p in before <==> p in after) && (p in before ==> before[p] == after[p])
    {
      OwnerInvertsManagedPaths(other, format, encoding, extension);
      NotOwn(request, id, other, RelativeBookPath(other, format, encoding));
      NotOwn(request, id, other, RelativeCoverPath(other, extension));
    }

    lemma NotOwn(request: Request, id: BookId, other: nat, relative: Path)
      requires OwnerOf(relative) == Some(other) && other != id
      requires AreApart(storage.libraryRoot, storage.stagingRoot) && AreApart(request.workingDirectory, storage.libraryRoot)
      ensures !(request.workingDirectory <= storage.libraryRoot + relative)
      ensures id > 0 ==> !storage.IsOwn(id, storage.libraryRoot + relative)
    {
      var p := storage.libraryRoot + relative;
      assert p[|storage.libraryRoot|..] == relative && storage.libraryRoot <= p;
      if id > 0 {
        assert storage.stagingRoot <= storage.StagingDirectory(id);
        ApartIsInherited(storage.libraryRoot, storage.stagingRoot, p, storage.StagingDirectory(id));
      }
    }
  }

  lemma AddedThenRemoved(tokens: Tokenizer, t: Tables, b: Book)
    requires IsLawful(tokens) && CatalogueRuns.IsCatalogue(t) && b.id > 0 && b.id !in t.books
    ensures var t' := CatalogueRuns.Removed(tokens, CatalogueRuns.Inserted(tokens, t, b), b.id);
            CatalogueRuns.IsCatalogue(t') && t'.books == t.books
  {
    CatalogueRuns.InsertedNames(tokens, t, b);
    CatalogueRuns.RemovedRow(tokens, CatalogueRuns.Inserted(tokens, t, b), b.id);
    assert t.books[b.id := RowOf(b)] - {b.id} == t.books;
  }

  function FormatText(format: BookFormat): Text {
    match format
    case Epub => [0x65, 0x70, 0x75, 0x62]
    case Fb2 => [0x66, 0x62, 0x32]
  }

  /** The catalogue spells a format like the extension of its plain managed file. */
  lemma FormatTextIsExtension(format: BookFormat)
    ensures var name := ManagedFileName(format, Plain);
            && |name| == 5 + |FormatText(format)| && name[..5] == "book."
            && forall i :: 0 <= i < |FormatText(format)| ==> name[5 + i] as int == FormatText(format)[i]
  {
    match format
    case Epub => assert ManagedFileName(format, Plain) == "book.epub";
    case Fb2 => assert ManagedFileName(format, Plain) == "book.fb2";
  }
}
