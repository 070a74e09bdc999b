/**
  * The bookkeeping of an import: archive entries keep their order and get distinct reserved
  * ids, and the totals over all sources agree with the list of imported books.
  */
module ImportAccounting {
  import opened Catalogue
  import opened ImportLoop
  import SingleFileImport
  import opened Wrappers

  // ---------------------------------------------------------------------------------------
  // One archive
  // ---------------------------------------------------------------------------------------

  datatype EntryKind = Directory | NestedArchive | UnsafePath | UnsupportedFormat | BookEntry

  datatype EntryStatus = EntryImported(id: BookId) | EntrySkipped | UnsupportedEntry | NestedArchiveSkipped | EntryFailed | EntryCancelled

  /** `index` is the place in the archive; the marker for a cancelled scan has none. */
  datatype EntryResult = EntryResult(index: Option<nat>, status: EntryStatus)

  /** A slot has its result at once or waits for the worker that was given this id. */
  datatype Slot = Immediate(index: nat, status: EntryStatus) | Future(index: nat, reservedId: Option<BookId>)

  /** What the pool answers for an entry that was submitted with an id. */
  type Worker = (nat, Option<BookId>) -> EntryStatus

  function Collected(worker: Worker, slot: Slot): EntryResult {
    match slot
    case Immediate(index, status) => EntryResult(Some(index), status)
    case Future(index, reservedId) => EntryResult(Some(index), worker(index, reservedId))
  }

  function Futures(slots: seq<Slot>): seq<Slot> {
    if slots == [] then []
    else
      var last := slots[|slots| - 1];
      Futures(slots[..|slots| - 1]) + if last.Future? then [last] else []
  }

  /** The entry itself, or why no worker gets it. */
  predicate IsFiledRight(kind: EntryKind, canExtract: bool, slot: Slot) {
    match kind
    case Directory => false
    case NestedArchive => slot.Immediate? && slot.status == NestedArchiveSkipped
    case UnsafePath => slot.Immediate? && slot.status == UnsupportedEntry
    case UnsupportedFormat => slot.Immediate? && slot.status == UnsupportedEntry
    case BookEntry => if canExtract then slot.Future? else slot.Immediate? && slot.status == EntryFailed
  }

  ghost predicate AreInArchiveOrder(slots: seq<Slot>) {
    forall i, j :: 0 <= i < j < |slots| ==> slots[i].index < slots[j].index
  }

  ghost predicate HasSlot(slots: seq<Slot>, index: nat) {
    exists i :: 0 <= i < |slots| && slots[i].index == index
  }

  /** Exactly the entries scanned so far that are not directories have a slot, filed right. */
  ghost predicate AreComplete(kinds: seq<EntryKind>, canExtract: nat -> bool, slots: seq<Slot>, scanned: nat)
    requires scanned <= |kinds|
  {
    && (forall i :: 0 <= i < |slots| ==>
          slots[i].index < scanned && IsFiledRight(kinds[slots[i].index], canExtract(slots[i].index), slots[i]))
    && (forall k :: 0 <= k < scanned && kinds[k] != Directory ==> HasSlot(slots, k))
  }

  /** Submitted entries take the reserved ids in order, as long as there are any. */
  ghost predicate TakeIdsInOrder(slots: seq<Slot>, reservedIds: seq<BookId>) {
    var futures := Futures(slots);
    forall j :: 0 <= j < |futures| ==>
      futures[j].Future? && futures[j].reservedId == if j < |reservedIds| then Some(reservedIds[j]) else None
  }

  lemma AppendingSlot(kinds: seq<EntryKind>, canExtract: nat -> bool, slots: seq<Slot>, scanned: nat, slot: Slot)
    requires scanned < |kinds| && AreInArchiveOrder(slots) && AreComplete(kinds, canExtract, slots, scanned)
    requires slot.index == scanned && IsFiledRight(kinds[scanned], canExtract(scanned), slot)
    ensures AreInArchiveOrder(slots + [slot]) && AreComplete(kinds, canExtract, slots + [slot], scanned + 1)
    ensures Futures(slots + [slot]) == Futures(slots) + if slot.Future? then [slot] else []
  {
    var all := slots + [slot];
    assert all[..|slots|] == slots;
    forall k | 0 <= k < scanned + 1 && kinds[k] != Directory ensures HasSlot(all, k) {
      if k < scanned {
        assert HasSlot(slots, k);
        var i :| 0 <= i < |slots| && slots[i].index == k;
        assert all[i].index == k;
      } else {
        assert all[|slots|].index == k;
      }
    }
  }

  lemma TakingNextId(slots: seq<Slot>, slot: Slot, reservedIds: seq<BookId>)
    requires TakeIdsInOrder(slots, reservedIds) && Futures(slots + [slot]) == Futures(slots) + if slot.Future? then [slot] else []
    requires var n := |Futures(slots)|;
             slot.Future? ==> slot.reservedId == if n < |reservedIds| then Some(reservedIds[n]) else None
    ensures TakeIdsInOrder(slots + [slot], reservedIds)
  {
    var before, after := Futures(slots), Futures(slots + [slot]);
    forall j | 0 <= j < |after|
      ensures after[j].Future? && after[j].reservedId == if j < |reservedIds| then Some(reservedIds[j]) else None
    {
      assert after[j] == if j < |before| then before[j] else slot;
    }
  }

  /** What becomes of one entry; only a book that can be extracted uses the next id. */
  method FileEntry(kind: EntryKind, index: nat, canExtract: bool, nextId: Option<BookId>) returns (slot: Slot)
    requires kind != Directory
    ensures slot.index == index && IsFiledRight(kind, canExtract, slot) && (slot.Future? ==> slot.reservedId == nextId)
  {
    match kind {
      case NestedArchive => slot := Immediate(index, NestedArchiveSkipped);
      case UnsafePath => slot := Immediate(index, UnsupportedEntry);
      case UnsupportedFormat => slot := Immediate(index, UnsupportedEntry);
      case BookEntry =>
        if !canExtract {
          slot := Immediate(index, EntryFailed);
        } else {
          slot := Future(index, nextId);
        }
    }
  }

  /** The scan on the main thread, up to the entry at which a cancellation is noticed. */
  method ScanArchive(kinds: seq<EntryKind>, reservedIds: seq<BookId>, canExtract: nat -> bool, isStopped: nat -> bool)
    returns (slots: seq<Slot>, cancelledAt: Option<nat>)
    ensures AreInArchiveOrder(slots) && TakeIdsInOrder(slots, reservedIds)
    ensures cancelledAt.Some? ==> cancelledAt.value < |kinds| && isStopped(cancelledAt.value)
    ensures AreComplete(kinds, canExtract, slots, if cancelledAt.Some? then cancelledAt.value else |kinds|)
    ensures cancelledAt.None? ==> forall k :: 0 <= k < |kinds| ==> !isStopped(k)
  {
    slots, cancelledAt := [], None;
    var reservedIdIndex := 0;
    for index := 0 to |kinds|
      invariant AreInArchiveOrder(slots) && AreComplete(kinds, canExtract, slots, index)
      invariant TakeIdsInOrder(slots, reservedIds) && reservedIdIndex == |Futures(slots)|
      invariant forall k :: 0 <= k < index ==> !isStopped(k)
    {
      if isStopped(index) {
        return slots, Some(index);
      }
      if kinds[index] == Directory {
        continue;
      }
      var slot := FileEntry(kinds[index], index, canExtract(index),
                            if reservedIdIndex < |reservedIds| then Some(reservedIds[reservedIdIndex]) else None);
      if slot.Future? {
        reservedIdIndex := reservedIdIndex + 1;
      }
      AppendingSlot(kinds, canExtract, slots, index, slot);
      TakingNextId(slots, slot, reservedIds);
      slots := slots + [slot];
    }
  }

  /** The results in slot order, and the marker of a cancelled scan. */
  method CollectResults(slots: seq<Slot>, worker: Worker, cancelled: bool) returns (results: seq<EntryResult>)
    requires AreInArchiveOrder(slots)
    ensures |results| == |slots| + (if cancelled then 1 else 0)
    ensures forall i :: 0 <= i < |slots| ==> results[i] == Collected(worker, slots[i]) && results[i].index.Some?
    ensures forall i, j :: 0 <= i < j < |slots| ==> results[i].index.value < results[j].index.value
    ensures cancelled ==> results[|slots|] == EntryResult(None, EntryCancelled)
  {
    results := [];
    for i := 0 to |slots|
      invariant |results| == i && forall k :: 0 <= k < i ==> results[k] == Collected(worker, slots[k])
    {
      results := results + [Collected(worker, slots[i])];
    }
    if cancelled {
      results := results + [EntryResult(None, EntryCancelled)];
    }
  }

  /** No two submitted entries share a reserved id. */
  lemma SubmittedIdsAreDistinct(slots: seq<Slot>, reservedIds: seq<BookId>, i: nat, j: nat)
    requires TakeIdsInOrder(slots, reservedIds)
    requires forall a, b :: 0 <= a < b < |reservedIds| ==> reservedIds[a] != reservedIds[b]
    requires i < j < |Futures(slots)| && Futures(slots)[j].reservedId.Some?
    ensures Futures(slots)[i].reservedId.Some? && Futures(slots)[i].reservedId != Futures(slots)[j].reservedId
  {
  }

  // ---------------------------------------------------------------------------------------
  // All sources of an import
  // ---------------------------------------------------------------------------------------

  /**
    * The outcomes of one source; an archive or a single file without one threw. The events of a
    * parallel segment arrive in an order of their own, and a cancellation leaves files unsubmitted.
    */
  datatype Source =
    | Archive(plannedEntries: nat, statuses: Option<seq<EntryStatus>>)
    | Single(outcome: Option<Outcome>)
    | Segment(events: seq<Outcome>, results: seq<Outcome>, unsubmitted: nat)

  predicate IsSource(s: Source) {
    s.Segment? ==> multiset(s.events) == multiset(s.results)
  }

  /** How many of the files of a source count as failed, or as skipped, and whether it cancels the import. */
  function FailedOfSource(s: Source, isBatch: bool): nat {
    match s
    case Archive(planned, statuses) =>
      if statuses.Some? then Count(statuses.value, IsFailedEntry)
      else if !isBatch then 0
      else if planned > 1 then planned else 1
    case Single(outcome) => if outcome == Some(NotImported) then 1 else 0
    case Segment(_, results, _) => multiset(results)[NotImported]
  }

  function SkippedOfSource(s: Source): nat {
    match s
    case Archive(_, statuses) => if statuses.Some? then Count(statuses.value, IsSkippedEntry) else 0
    case Single(outcome) => if outcome == Some(Outcome.Skipped) || outcome == Some(Outcome.Cancelled) then 1 else 0
    case Segment(_, results, _) => multiset(results)[Outcome.Skipped] + multiset(results)[Outcome.Cancelled]
  }

  predicate Cancels(s: Source) {
    match s
    case Archive(_, statuses) => statuses.Some? && EntryCancelled in statuses.value
    case Single(outcome) => outcome == Some(Outcome.Cancelled)
    case Segment(_, results, unsubmitted) => Outcome.Cancelled in results || unsubmitted > 0
  }

  function FailedOfSources(sources: seq<Source>, isBatch: bool): nat {
    if sources == [] then 0
    else FailedOfSources(sources[..|sources| - 1], isBatch) + FailedOfSource(sources[|sources| - 1], isBatch)
  }

  function SkippedOfSources(sources: seq<Source>): nat {
    if sources == [] then 0 else SkippedOfSources(sources[..|sources| - 1]) + SkippedOfSource(sources[|sources| - 1])
  }

  /** The counters after some sources: every finished file has been counted for what became of it. */
  ghost predicate CountSources(before: Counters, after: Counters, sources: seq<Source>, isBatch: bool) {
    && after.failed == before.failed + FailedOfSources(sources, isBatch)
    && after.skipped == before.skipped + SkippedOfSources(sources)
    && (after.wasCancelled <==> before.wasCancelled || exists i :: 0 <= i < |sources| && Cancels(sources[i]))
  }

  /** The ids a source adds to the list. */
  function IdsOfSource(s: Source): seq<BookId> {
    match s
    case Archive(_, statuses) => if statuses.Some? then IdsOfEntries(statuses.value) else []
    case Single(outcome) => if outcome.Some? then IdsOfOutcomes([outcome.value]) else []
    case Segment(_, results, _) => IdsOfOutcomes(results)
  }

  function IdsOfSources(sources: seq<Source>): seq<BookId> {
    if sources == [] then [] else IdsOfSources(sources[..|sources| - 1]) + IdsOfSource(sources[|sources| - 1])
  }

  predicate IsBalanced(c: Counters) {
    c.processed == c.imported + c.failed + c.skipped
  }

  function IdsOfOutcomes(outcomes: seq<Outcome>): seq<BookId> {
    if outcomes == [] then []
    else
      var last := outcomes[|outcomes| - 1];
      IdsOfOutcomes(outcomes[..|outcomes| - 1]) + if last.ImportedAs? then [last.id] else []
  }

  /** How many books were imported does not depend on the order of the outcomes. */
  lemma {:induction false} IdCountIsOrderFree(outcomes: seq<Outcome>)
    ensures |IdsOfOutcomes(outcomes)| == |multiset(outcomes)| - multiset(outcomes)[Outcome.Skipped]
                                         - multiset(outcomes)[Outcome.Cancelled] - multiset(outcomes)[NotImported]
  {
    if outcomes != [] {
      var init, last := outcomes[..|outcomes| - 1], outcomes[|outcomes| - 1];
      assert outcomes == init + [last];
      IdCountIsOrderFree(init);
      assert multiset(outcomes) == multiset(init) + multiset{last};
    }
  }

  function AfterEvents(c: Counters, events: seq<Outcome>): Counters {
    if events == [] then c else Folded(AfterEvents(c, events[..|events| - 1]), events[|events| - 1])
  }

  /** BuildSingleFileProgressEvent: what a finished import counts as; a throw is NotImported. */
  function OutcomeOf(r: SingleFileImport.Result): Outcome
    requires r.status.Imported? ==> r.importedId.Some?
  {
    match r.status
    case Imported => ImportedAs(r.importedId.value)
    case RejectedDuplicate | UnsupportedFormat => Outcome.Skipped
    case Cancelled => Outcome.Cancelled
    case Failed => NotImported
  }

  /** Which counter each status of a finished import moves, and that it moves no other. */
  lemma StatusCounts(c: Counters, r: SingleFileImport.Result)
    requires r.status.Imported? ==> r.importedId.Some?
    ensures var after := Folded(c, OutcomeOf(r));
            && after.processed == c.processed + 1
            && after.imported == c.imported + One(r.status == SingleFileImport.Imported)
            && after.failed == c.failed + One(r.status == SingleFileImport.Failed)
            && after.skipped == c.skipped + One(r.status in {SingleFileImport.RejectedDuplicate, SingleFileImport.UnsupportedFormat, SingleFileImport.Cancelled})
            && (after.wasCancelled <==> c.wasCancelled || r.status == SingleFileImport.Cancelled)
  {
    match r.status
    case Imported =>
    case RejectedDuplicate =>
    case UnsupportedFormat =>
    case Cancelled =>
    case Failed =>
  }

  /** The counters after some events, by how often each outcome is among them. */
  ghost predicate AreCounted(before: Counters, after: Counters, events: seq<Outcome>) {
    var all := multiset(events);
    && after.processed == before.processed + |events|
    && after.imported == before.imported + |IdsOfOutcomes(events)|
    && after.failed == before.failed + all[NotImported]
    && after.skipped == before.skipped + all[Outcome.Skipped] + all[Outcome.Cancelled]
    && (after.wasCancelled <==> before.wasCancelled || Outcome.Cancelled in events)
  }

  /** Events count for what they are, in whatever order they are folded. */
  lemma {:induction false} AfterEventsCounts(c: Counters, events: seq<Outcome>)
    ensures AreCounted(c, AfterEvents(c, events), events)
  {
    if events != [] {
      var init, last := events[..|events| - 1], events[|events| - 1];
      assert events == init + [last];
      AfterEventsCounts(c, init);
      assert multiset(events) == multiset(init) + multiset{last};
    }
  }

  function IdsOfEntries(statuses: seq<EntryStatus>): seq<BookId> {
    if statuses == [] then []
    else
      var last := statuses[|statuses| - 1];
      IdsOfEntries(statuses[..|statuses| - 1]) + if last.EntryImported? then [last.id] else []
  }

  function Count(statuses: seq<EntryStatus>, p: EntryStatus -> bool): nat {
    if statuses == [] then 0
    else Count(statuses[..|statuses| - 1], p) + if p(statuses[|statuses| - 1]) then 1 else 0
  }

  predicate IsFailedEntry(s: EntryStatus) {
    s.EntryFailed?
  }

  predicate IsSkippedEntry(s: EntryStatus) {
    s.EntrySkipped? || s.UnsupportedEntry? || s.NestedArchiveSkipped?
  }

  class ImportTotals {
    var counters: Counters
    var importedIds: seq<BookId>
    /** What has been reported as progress. */
    var reports: seq<Counters>

    constructor ()
      ensures counters == Counters(0, 0, 0, 0, false) && importedIds == [] && reports == []
    {
      counters, importedIds, reports := Counters(0, 0, 0, 0, false), [], [];
    }

    /** Every report so far was balanced, and the imported count is the length of the list. */
    ghost predicate IsConsistent()
      reads this
    {
      && IsBalanced(counters) && counters.imported == |importedIds|
      && forall i :: 0 <= i < |reports| ==> IsBalanced(reports[i])
    }

    method Report()
      modifies this`reports
      ensures reports == old(reports) + [counters]
    {
      reports := reports + [counters];
    }

    /** ApplyProgressEvent for one event after the other, each with its report. */
    method ApplyEvents(events: seq<Outcome>)
      requires IsBalanced(counters) && forall i :: 0 <= i < |reports| ==> IsBalanced(reports[i])
      modifies this`counters, this`reports
      ensures IsBalanced(counters) && forall i :: 0 <= i < |reports| ==> IsBalanced(reports[i])
      ensures AreCounted(old(counters), counters, events) && |reports| == |old(reports)| + |events|
    {
      for i := 0 to |events|
        invariant IsBalanced(counters) && forall k :: 0 <= k < |reports| ==> IsBalanced(reports[k])
        invariant counters == AfterEvents(old(counters), events[..i]) && |reports| == |old(reports)| + i
      {
        assert events[..i + 1][..i] == events[..i];
        counters := Folded(counters, events[i]);
        Report();
      }
      assert events[..|events|] == events;
      AfterEventsCounts(old(counters), events);
    }

    /** The ids of the finished results, in submission order. */
    method CollectIds(results: seq<Outcome>)
      modifies this`importedIds
      ensures importedIds == old(importedIds) + IdsOfOutcomes(results)
    {
      for i := 0 to |results|
        invariant importedIds == old(importedIds) + IdsOfOutcomes(results[..i])
      {
        assert results[..i + 1][..i] == results[..i];
        if results[i].ImportedAs? {
          importedIds := importedIds + [results[i].id];
        }
      }
      assert results[..|results|] == results;
    }

    /** An archive that was run: its cancelled entries count as not processed. */
    method ApplyArchive(statuses: seq<EntryStatus>)
      requires IsConsistent()
      modifies this
      ensures IsConsistent() && reports == old(reports) + [counters]
      ensures importedIds == old(importedIds) + IdsOfEntries(statuses)
      ensures counters.failed == old(counters).failed + Count(statuses, IsFailedEntry)
      ensures counters.skipped == old(counters).skipped + Count(statuses, IsSkippedEntry)
      ensures counters.wasCancelled <==> old(counters).wasCancelled || EntryCancelled in statuses
    {
      for i := 0 to |statuses|
        invariant IsConsistent() && reports == old(reports)
        invariant importedIds == old(importedIds) + IdsOfEntries(statuses[..i])
        invariant counters.failed == old(counters).failed + Count(statuses[..i], IsFailedEntry)
        invariant counters.skipped == old(counters).skipped + Count(statuses[..i], IsSkippedEntry)
        invariant counters.wasCancelled <==> old(counters).wasCancelled || EntryCancelled in statuses[..i]
      {
        assert statuses[..i + 1][..i] == statuses[..i];
        assert statuses[..i + 1] == statuses[..i] + [statuses[i]];
        match statuses[i]
        case EntryImported(id) =>
          counters := counters.(processed := counters.processed + 1, imported := counters.imported + 1);
          importedIds := importedIds + [id];
        case EntryFailed =>
          counters := counters.(processed := counters.processed + 1, failed := counters.failed + 1);
        case EntryCancelled =>
          counters := counters.(wasCancelled := true);
        case _ =>
          counters := counters.(processed := counters.processed + 1, skipped := counters.skipped + 1);
      }
      assert statuses[..|statuses|] == statuses;
      Report();
    }

    /** An archive that threw: its planned entries, at least one, count as failed. */
    method FailArchive(plannedEntries: nat)
      requires IsConsistent()
      modifies this
      ensures IsConsistent() && reports == old(reports) + [counters] && importedIds == old(importedIds)
      ensures counters.failed == old(counters).failed + if plannedEntries > 1 then plannedEntries else 1
      ensures counters == old(counters).(processed := counters.processed, failed := counters.failed)
    {
      var count := if plannedEntries > 1 then plannedEntries else 1;
      counters := counters.(processed := counters.processed + count, failed := counters.failed + count);
      Report();
    }

    /** One file imported on the main thread. */
    method ApplySingle(outcome: Outcome)
      requires IsConsistent()
      modifies this
      ensures IsConsistent() && importedIds == old(importedIds) + IdsOfOutcomes([outcome])
      ensures AreCounted(old(counters), counters, [outcome])
      ensures multiset([outcome]) == multiset{outcome}
    {
      assert multiset([outcome]) == multiset{outcome};
      ApplyEvents([outcome]);
      CollectIds([outcome]);
    }

    /** The files of a parallel segment: events as they came, results in submission order. */
    method ApplySegment(events: seq<Outcome>, results: seq<Outcome>, unsubmitted: nat)
      requires IsConsistent() && multiset(events) == multiset(results)
      modifies this
      ensures IsConsistent() && importedIds == old(importedIds) + IdsOfOutcomes(results)
      ensures counters.failed == old(counters).failed + multiset(results)[NotImported]
      ensures counters.skipped == old(counters).skipped + multiset(results)[Outcome.Skipped] + multiset(results)[Outcome.Cancelled]
      ensures counters.wasCancelled <==> old(counters).wasCancelled || Outcome.Cancelled in results || unsubmitted > 0
      ensures unsubmitted > 0 ==> reports != [] && reports[|reports| - 1] == counters
    {
      IdCountIsOrderFree(events);
      IdCountIsOrderFree(results);
      assert Outcome.Cancelled in events <==> Outcome.Cancelled in multiset(events);
      assert Outcome.Cancelled in results <==> Outcome.Cancelled in multiset(results);
      ApplyEvents(events);
      CollectIds(results);
      if unsubmitted > 0 {
        counters := counters.(wasCancelled := true);
        Report();
      }
    }

    /** One source of the import; false means that an exception is passed on. */
    method RunSource(source: Source, isBatch: bool) returns (ok: bool)
      requires IsConsistent() && IsSource(source)
      modifies this
      ensures IsConsistent()
      ensures ok <==> match source {
                case Archive(_, statuses) => statuses.Some? || isBatch
                case Single(outcome) => outcome.Some?
                case Segment(_, _, _) => true }
      ensures importedIds == old(importedIds) + IdsOfSource(source)
      ensures counters.failed == old(counters).failed + FailedOfSource(source, isBatch)
      ensures counters.skipped == old(counters).skipped + SkippedOfSource(source)
      ensures counters.wasCancelled <==> old(counters).wasCancelled || Cancels(source)
      ensures source.Segment? && source.unsubmitted > 0 ==> reports != [] && reports[|reports| - 1] == counters
    {
      ok := true;
      match source
      case Archive(plannedEntries, statuses) =>
        if statuses.Some? {
          ApplyArchive(statuses.value);
        } else if isBatch {
          FailArchive(plannedEntries);
        } else {
          ok := false;
        }
      case Single(outcome) =>
        if outcome.None? {
          return false;
        }
        ApplySingle(outcome.value);
      case Segment(events, results, unsubmitted) =>
        ApplySegment(events, results, unsubmitted);
    }

    /** The loop over the sources, up to a cancellation or an exception. */
    method RunSources(sources: seq<Source>, isBatch: bool, isStopped: nat -> bool) returns (ok: bool, cancelled: bool, ghost done: nat)
      requires IsConsistent() && forall i :: 0 <= i < |sources| ==> IsSource(sources[i])
      modifies this
      ensures IsConsistent() && done <= |sources|
      ensures importedIds == old(importedIds) + IdsOfSources(sources[..done])
      ensures CountSources(old(counters), counters, sources[..done], isBatch)
      ensures ok ==> if cancelled then done < |sources| && isStopped(done) else done == |sources|
      ensures !ok ==> done > 0 && (sources[done - 1] == Single(None) || (sources[done - 1].Archive? && sources[done - 1].statuses.None? && !isBatch))
    {
      ok, cancelled, done := true, false, 0;
      for i := 0 to |sources|
        invariant IsConsistent() && done == i && ok
        invariant importedIds == old(importedIds) + IdsOfSources(sources[..i])
        invariant CountSources(old(counters), counters, sources[..i], isBatch)
      {
        if isStopped(i) {
          return true, true, done;
        }
        ghost var before := counters;
        ok := RunSource(sources[i], isBatch);
        OneMoreSource(old(importedIds), sources, i);
        OneMoreCounted(old(counters), before, counters, sources, i, isBatch);
        done := i + 1;
        if !ok {
          return;
        }
      }
    }

    lemma OneMoreCounted(first: Counters, before: Counters, after: Counters, sources: seq<Source>, i: nat, isBatch: bool)
      requires i < |sources| && CountSources(first, before, sources[..i], isBatch)
      requires after.failed == before.failed + FailedOfSource(sources[i], isBatch)
      requires after.skipped == before.skipped + SkippedOfSource(sources[i])
      requires after.wasCancelled <==> before.wasCancelled || Cancels(sources[i])
      ensures CountSources(first, after, sources[..i + 1], isBatch)
    {
      var earlier, now := sources[..i], sources[..i + 1];
      assert now[..i] == earlier && now[i] == sources[i];
      forall k | 0 <= k < |now| && Cancels(now[k]) ensures after.wasCancelled {
        if k < i {
          assert Cancels(earlier[k]);
        }
      }
      if exists k :: 0 <= k < |earlier| && Cancels(earlier[k]) {
        var k :| 0 <= k < |earlier| && Cancels(earlier[k]);
        assert Cancels(now[k]);
      }
      if Cancels(sources[i]) {
        assert Cancels(now[i]);
      }
    }

    lemma OneMoreSource(before: seq<BookId>, sources: seq<Source>, i: nat)
      requires i < |sources|
      ensures before + IdsOfSources(sources[..i + 1]) == before + IdsOfSources(sources[..i]) + IdsOfSource(sources[i])
    {
      assert sources[..i + 1][..i] == sources[..i];
    }

    /**
      * All sources, and the rollback if the import was cancelled or the writer failed. `listed` are
      * the ids of the sources that were run; the list that stays is theirs or the rest of a rollback,
      * and its length is the imported count. An exception passes a list on that nobody rolls back.
      */
    method Run(sources: seq<Source>, isBatch: bool, isStopped: nat -> bool, hasFatalError: bool,
               rollback: seq<BookId> -> seq<BookId>)
      returns (ok: bool, rolledBack: bool, ghost done: nat, ghost listed: seq<BookId>)
      requires IsConsistent() && forall i :: 0 <= i < |sources| ==> IsSource(sources[i])
      modifies this
      ensures forall i :: 0 <= i < |reports| ==> IsBalanced(reports[i])
      ensures counters.imported == |importedIds|
      ensures !rolledBack ==> IsBalanced(counters)
      ensures done <= |sources| && listed == old(importedIds) + IdsOfSources(sources[..done])
      ensures ok ==> done == |sources| || isStopped(done)
      ensures CountSources(old(counters), counters, sources[..done], isBatch)
      ensures !ok ==> done > 0 && (sources[done - 1] == Single(None) || (sources[done - 1].Archive? && sources[done - 1].statuses.None? && !isBatch))
      ensures importedIds == if rolledBack then rollback(listed) else listed
      ensures rolledBack <==> ok && listed != [] && (isStopped(done) || counters.wasCancelled || hasFatalError)
    {
      var cancelled;
      ok, cancelled, done := RunSources(sources, isBatch, isStopped);
      listed, rolledBack := importedIds, false;
      if ok && (cancelled || counters.wasCancelled || isStopped(|sources|) || hasFatalError) && importedIds != [] {
        importedIds := rollback(importedIds);
        counters := counters.(imported := |importedIds|);
        rolledBack := true;
      }
    }
  }
}
