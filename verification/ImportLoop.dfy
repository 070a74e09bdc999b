/**
  * The parallel import loop: the main thread hands out tasks under a counting semaphore and folds
  * their progress events, pool threads run the tasks, and the writer of WriterDispatch answers
  * their writes. One step is what one of the threads does atomically. The loop over the sources of
  * an import and the loop over the entries of an archive are both runs of it: only the second files
  * entries at once, and gives a permit back when it cannot extract an entry.
  */
module ImportLoop {
  import opened Catalogue
  import CatalogueRuns
  import opened WriterDispatch
  import opened Wrappers

  datatype Outcome = ImportedAs(id: BookId) | Skipped | Cancelled | NotImported

  /** A source file on its way through the pool. */
  datatype Stage =
    | Unsubmitted
    | Filed(outcome: Outcome)
    | Queued
    | Running
    | Accepted
    | AwaitingWrite(ticket: nat)
    | Returned(answered: Option<nat>)
    | Compensated
    | Published(outcome: Outcome)
    | Finished(outcome: Outcome)

  datatype MainPhase =
    | Acquiring(next: nat)
    | Submitting(next: nat)
    | Draining(next: nat)
    | Joining
    | Collecting(next: nat)
    | Done

  datatype Counters = Counters(processed: nat, imported: nat, failed: nat, skipped: nat, wasCancelled: bool)

  /** `ids` are the ids the sources would be imported under, and `scanned` sources have been looked at. */
  datatype Loop = Loop(
    threads: nat,
    ids: seq<BookId>,
    tasks: seq<Stage>,
    permits: nat,
    main: MainPhase,
    scanned: nat,
    submitted: nat,
    completed: nat,
    events: seq<Outcome>,
    counters: Counters,
    importedIds: seq<BookId>,
    writer: Dispatcher)

  datatype Move =
    | Acquire
    | StopSubmitting
    | FileEntry
    | FailExtraction
    | SubmitTask
    | FoldEvent
    | EndDrain
    | EndJoin
    | Collect
    | EndCollect
    | StartTask(i: nat)
    | ReserveOwn(i: nat)
    | RequestWrite(i: nat, entry: CatalogueRuns.BatchEntry)
    | SkipWrite(i: nat)
    | ReceiveAnswer(i: nat)
    | Compensate(i: nat)
    | Publish(i: nat, outcome: Outcome)
    | ReleasePermit(i: nat)
    | WriterMove(step: Step)

  // ---------------------------------------------------------------------------------------
  // Totals over the tasks
  // ---------------------------------------------------------------------------------------

  function Total(tasks: seq<Stage>, f: Stage -> nat): nat {
    if tasks == [] then 0 else Total(tasks[..|tasks| - 1], f) + f(tasks[|tasks| - 1])
  }

  lemma {:induction false} TotalOfUpdate(tasks: seq<Stage>, i: nat, s: Stage, f: Stage -> nat)
    requires i < |tasks|
    ensures Total(tasks[i := s], f) + f(tasks[i]) == Total(tasks, f) + f(s)
  {
    var last := |tasks| - 1;
    if i < last {
      assert tasks[i := s][..last] == tasks[..last][i := s];
      TotalOfUpdate(tasks[..last], i, s, f);
    } else {
      assert tasks[i := s][..last] == tasks[..last];
    }
  }

  lemma {:induction false} TotalsCompare(tasks: seq<Stage>, f: Stage -> nat, g: Stage -> nat) returns (i: nat)
    requires Total(tasks, f) < Total(tasks, g)
    ensures i < |tasks| && f(tasks[i]) < g(tasks[i])
  {
    var last := |tasks| - 1;
    if f(tasks[last]) < g(tasks[last]) {
      i := last;
    } else {
      i := TotalsCompare(tasks[..last], f, g);
    }
  }

  function One(b: bool): nat { if b then 1 else 0 }

  function Nothing(s: Stage): nat { 0 }
  function IsFiled(s: Stage): nat { One(s.Filed?) }
  function IsSubmitted(s: Stage): nat { One(!s.Unsubmitted? && !s.Filed?) }
  function HoldsPermit(s: Stage): nat { One(!s.Unsubmitted? && !s.Filed? && !s.Finished?) }
  function IsBusy(s: Stage): nat { One(!s.Unsubmitted? && !s.Filed? && !s.Queued? && !s.Finished?) }
  function HasEnded(s: Stage): nat { One(s.Published? || s.Finished?) }
  function IsImported(s: Stage): nat { One((s.Published? || s.Finished?) && s.outcome.ImportedAs?) }

  function Remaining(s: Stage): nat {
    match s
    case Unsubmitted => 15
    case Filed(_) => 0
    case Queued => 14
    case Running => 13
    case Accepted => 12
    case AwaitingWrite(_) => 6
    case Returned(_) => 5
    case Compensated => 4
    case Published(_) => 2
    case Finished(_) => 1
  }

  function ImportedEvents(events: seq<Outcome>): nat {
    if events == [] then 0 else One(events[0].ImportedAs?) + ImportedEvents(events[1..])
  }

  lemma {:induction false} ImportedEventsOfAppended(events: seq<Outcome>, o: Outcome)
    ensures ImportedEvents(events + [o]) == ImportedEvents(events) + One(o.ImportedAs?)
  {
    if events == [] {
      assert (events + [o])[1..] == [];
    } else {
      assert (events + [o])[1..] == events[1..] + [o];
      ImportedEventsOfAppended(events[1..], o);
    }
  }

  // ---------------------------------------------------------------------------------------
  // Steps
  // ---------------------------------------------------------------------------------------

  /** ApplyProgressEvent. A cancelled entry counts as skipped and raises the flag. */
  function Folded(c: Counters, o: Outcome): Counters {
    var c' := c.(processed := c.processed + 1);
    match o
    case ImportedAs(_) => c'.(imported := c.imported + 1)
    case Skipped => c'.(skipped := c.skipped + 1)
    case Cancelled => c'.(skipped := c.skipped + 1, wasCancelled := true)
    case NotImported => c'.(failed := c.failed + 1)
  }

  /** A task reports a book as imported only if the writer has answered so and nothing was taken back. */
  predicate MayPublish(w: Dispatcher, s: Stage, o: Outcome) {
    match s
    case Returned(answered) =>
      o.ImportedAs? ==> answered.Some? && answered.value in w.answers
                        && w.answers[answered.value] == CatalogueRuns.Imported(o.id)
    case Compensated => !o.ImportedAs?
    case _ => false
  }

  /** The writer has answered that it added the book of this task, and the task has not ended yet. */
  predicate HoldsImportedBook(w: Dispatcher, s: Stage) {
    s.Returned? && s.answered.Some? && s.answered.value in w.answers && w.answers[s.answered.value].Imported?
  }

  /** The main thread can take the result: it was filed, or the future is ready. */
  predicate HasResult(s: Stage) {
    s.Filed? || s.Finished?
  }

  predicate CanMove(l: Loop, m: Move) {
    match m
    case Acquire => l.main.Acquiring? && l.main.next < |l.tasks| && l.permits > 0
    case StopSubmitting => l.main.Acquiring?
    case FileEntry => l.main.Acquiring? && l.main.next < |l.tasks|
    case FailExtraction => l.main.Submitting? && l.main.next < |l.tasks|
    case SubmitTask => l.main.Submitting? && l.main.next < |l.tasks|
    case FoldEvent => (l.main.Draining? || l.main.Joining?) && l.events != []
    case EndDrain => l.main.Draining? && l.events == []
    case EndJoin => l.main.Joining? && l.completed >= l.submitted
    case Collect => l.main.Collecting? && l.main.next < l.scanned && l.main.next < |l.tasks| && HasResult(l.tasks[l.main.next])
    case EndCollect => l.main.Collecting? && l.main.next >= l.scanned
    case StartTask(i) => i < |l.tasks| && l.tasks[i].Queued? && Total(l.tasks, IsBusy) < l.threads
    case ReserveOwn(i) => i < |l.tasks| && l.tasks[i].Running?
    case RequestWrite(i, e) => i < |l.tasks| && i < |l.ids| && l.tasks[i].Accepted? && e.book.id == l.ids[i]
    case SkipWrite(i) => i < |l.tasks| && (l.tasks[i].Running? || l.tasks[i].Accepted?)
    case ReceiveAnswer(i) => i < |l.tasks| && l.tasks[i].AwaitingWrite? && l.tasks[i].ticket in l.writer.answers
    case Compensate(i) => i < |l.tasks| && i < |l.ids| && HoldsImportedBook(l.writer, l.tasks[i])
    case Publish(i, o) => i < |l.tasks| && MayPublish(l.writer, l.tasks[i], o)
    case ReleasePermit(i) => i < |l.tasks| && l.tasks[i].Published?
    case WriterMove(step) => IsWriterStep(step) && IsEnabled(l.writer, step) && !IsIdle(l.writer, step)
  }

  function WithTask(l: Loop, i: nat, s: Stage): Loop
    requires i < |l.tasks|
  {
    l.(tasks := l.tasks[i := s])
  }

  function AfterSubmitTask(l: Loop): Loop
    requires CanMove(l, SubmitTask)
  {
    WithTask(l, l.main.next, Queued)
      .(scanned := l.scanned + 1, submitted := l.submitted + 1, main := Draining(l.main.next))
  }

  /** AddImmediateEntry: the result is folded at once, without an event or a worker. */
  function AfterFiling(l: Loop, o: Outcome): Loop
    requires (l.main.Acquiring? || l.main.Submitting?) && l.main.next < |l.tasks|
  {
    WithTask(l, l.main.next, Filed(o))
      .(scanned := l.scanned + 1, counters := Folded(l.counters, o), main := Draining(l.main.next))
  }

  function AfterCollect(l: Loop): Loop
    requires CanMove(l, Collect)
  {
    var o := l.tasks[l.main.next].outcome;
    l.(importedIds := l.importedIds + (if o.ImportedAs? then [o.id] else []), main := Collecting(l.main.next + 1))
  }

  function AfterPublish(l: Loop, i: nat, o: Outcome): Loop
    requires i < |l.tasks|
  {
    WithTask(l, i, Published(o)).(events := l.events + [o])
  }

  function AfterRelease(l: Loop, i: nat): Loop
    requires i < |l.tasks| && l.tasks[i].Published?
  {
    WithTask(l, i, Finished(l.tasks[i].outcome)).(permits := l.permits + 1)
  }

  ghost function Moved(tokens: Tokenizer, l: Loop, m: Move): Loop
    requires CanMove(l, m)
  {
    match m
    case Acquire => l.(permits := l.permits - 1, main := Submitting(l.main.next))
    case StopSubmitting => l.(main := Joining)
    case FileEntry => AfterFiling(l, Skipped)
    case FailExtraction => AfterFiling(l, NotImported).(permits := l.permits + 1)
    case SubmitTask => AfterSubmitTask(l)
    case FoldEvent =>
      l.(events := l.events[1..], completed := l.completed + 1, counters := Folded(l.counters, l.events[0]))
    case EndDrain => l.(main := Acquiring(l.main.next + 1))
    case EndJoin => l.(main := Collecting(0))
    case Collect => AfterCollect(l)
    case EndCollect => l.(main := Done)
    case StartTask(i) => WithTask(l, i, Running)
    case ReserveOwn(i) =>
      WithTask(l, i, Accepted).(writer := Next(tokens, l.writer, Forward(CatalogueRuns.Reserve(1))))
    case RequestWrite(i, e) =>
      if l.writer.fatal || l.writer.stopped then WithTask(l, i, Returned(None))
      else WithTask(l, i, AwaitingWrite(|l.writer.log|)).(writer := SubmitStep(l.writer, e))
    case SkipWrite(i) => WithTask(l, i, Returned(None))
    case ReceiveAnswer(i) => WithTask(l, i, Returned(Some(l.tasks[i].ticket)))
    case Compensate(i) =>
      WithTask(l, i, Compensated).(writer := Next(tokens, l.writer, Forward(CatalogueRuns.Remove(l.ids[i]))))
    case Publish(i, o) => AfterPublish(l, i, o)
    case ReleasePermit(i) => AfterRelease(l, i)
    case WriterMove(step) => l.(writer := Next(tokens, l.writer, step))
  }

  function Begun(threads: nat, ids: seq<BookId>, w: Dispatcher): Loop {
    Loop(threads, ids, seq(|ids|, i => Unsubmitted), 2 * threads, Acquiring(0), 0, 0, 0, [],
         Counters(0, 0, 0, 0, false), [], w)
  }

  // ---------------------------------------------------------------------------------------
  // The invariant
  // ---------------------------------------------------------------------------------------

  /** Sources are looked at in order: a prefix of the list, as long as the loop says. */
  ghost predicate IsSubmissionOrdered(l: Loop) {
    && l.scanned <= |l.tasks|
    && (forall i :: 0 <= i < |l.tasks| ==> (l.tasks[i].Unsubmitted? <==> l.scanned <= i))
    && (l.main.Acquiring? ==> l.main.next == l.scanned)
    && (l.main.Submitting? ==> l.main.next == l.scanned < |l.tasks|)
    && (l.main.Draining? ==> l.main.next + 1 == l.scanned)
    && (l.main.Collecting? ==> l.main.next <= l.scanned)
  }

  /** Permits are conserved: free ones, held ones, and the one in the hand of the main thread. */
  ghost predicate ArePermitsConserved(l: Loop) {
    l.permits + Total(l.tasks, HoldsPermit) + One(l.main.Submitting?) == 2 * l.threads
  }

  /** Every ended task has published one event, which is queued or folded. */
  ghost predicate AreEventsCounted(l: Loop) {
    && l.completed + |l.events| == Total(l.tasks, HasEnded)
    && (l.main.Collecting? || l.main.Done? ==> l.completed == l.submitted)
    && Total(l.tasks, IsSubmitted) == l.submitted
    && Total(l.tasks, IsBusy) <= l.threads
  }

  /** The accounting the progress reports rely on. */
  ghost predicate IsAccounted(l: Loop) {
    && l.submitted + Total(l.tasks, IsFiled) == l.scanned
    && l.counters.processed == l.completed + Total(l.tasks, IsFiled)
    && l.counters.processed == l.counters.imported + l.counters.failed + l.counters.skipped
    && l.counters.imported + ImportedEvents(l.events) == Total(l.tasks, IsImported)
  }

  /** The ids in the results of the tasks, in order. */
  function ResultIds(tasks: seq<Stage>): (ids: seq<BookId>)
    ensures |ids| == Total(tasks, IsImported)
  {
    if tasks == [] then []
    else
      var last := tasks[|tasks| - 1];
      ResultIds(tasks[..|tasks| - 1]) + if IsImported(last) == 1 then [last.outcome.id] else []
  }

  /** How many results the main thread has collected. */
  function Collected(l: Loop): nat {
    if l.main.Collecting? then l.main.next else if l.main.Done? then l.scanned else 0
  }

  /** Collected results are those of the first tasks, all of them there. */
  ghost predicate AreIdsCollected(l: Loop) {
    && Collected(l) <= |l.tasks|
    && (forall i :: 0 <= i < Collected(l) ==> HasResult(l.tasks[i]))
    && (forall i :: 0 <= i < |l.tasks| && l.tasks[i].Filed? ==> !l.tasks[i].outcome.ImportedAs?)
    && l.importedIds == ResultIds(l.tasks[..Collected(l)])
  }

  /** Whoever waits for the writer, or has waited, holds a ticket the writer issued for its own id. */
  ghost predicate AreTicketsIssued(l: Loop) {
    && |l.ids| == |l.tasks|
    && (forall i :: 0 <= i < |l.tasks| && l.tasks[i].AwaitingWrite? ==> IsTicketFor(l.writer, l.tasks[i].ticket, l.ids[i]))
    && (forall i :: 0 <= i < |l.tasks| && l.tasks[i].Returned? && l.tasks[i].answered.Some? ==>
          IsTicketFor(l.writer, l.tasks[i].answered.value, l.ids[i]))
  }

  predicate IsTicketFor(w: Dispatcher, ticket: nat, id: BookId) {
    ticket < |w.log| && w.log[ticket].book.id == id
  }

  /** A result names the book under the id of its own source. */
  ghost predicate AreResultsOwn(l: Loop) {
    && |l.ids| == |l.tasks|
    && forall i :: 0 <= i < |l.tasks| && IsImported(l.tasks[i]) == 1 ==> l.tasks[i].outcome.id == l.ids[i]
  }

  /** The part of the invariant that does not look at the writer. */
  ghost predicate IsConsistent(l: Loop) {
    && l.threads > 0
    && IsSubmissionOrdered(l)
    && ArePermitsConserved(l)
    && AreEventsCounted(l)
    && IsAccounted(l)
    && AreIdsCollected(l)
  }

  /** The writer has answered some request with this book. */
  ghost predicate WasImported(w: Dispatcher, id: BookId) {
    exists k :: k in w.answers && w.answers[k] == CatalogueRuns.Imported(id)
  }

  /** Whatever is reported or listed as imported was imported by the writer. */
  ghost predicate AreImportsAnswered(l: Loop) {
    && (forall i :: 0 <= i < |l.tasks| && IsImported(l.tasks[i]) == 1 ==> WasImported(l.writer, l.tasks[i].outcome.id))
    && (forall i :: 0 <= i < |l.importedIds| ==> WasImported(l.writer, l.importedIds[i]))
  }

  ghost predicate Inv(tokens: Tokenizer, start: Tables, l: Loop) {
    && IsConsistent(l)
    && AreTicketsIssued(l)
    && AreReservedIds(l.ids)
    && AreResultsOwn(l)
    && AreImportsAnswered(l)
    && WriterDispatch.Inv(tokens, start, l.writer)
  }

  /** Ids as they are reserved: positive, and no two the same. */
  ghost predicate AreReservedIds(ids: seq<BookId>) {
    && (forall i :: 0 <= i < |ids| ==> ids[i] > 0)
    && (forall i, j :: 0 <= i < j < |ids| ==> ids[i] != ids[j])
  }

  // ---------------------------------------------------------------------------------------
  // How one task changing its stage shows in the totals
  // ---------------------------------------------------------------------------------------

  lemma StageChange(l: Loop, i: nat, s: Stage)
    requires i < |l.tasks|
    ensures var t, t' := l.tasks, l.tasks[i := s];
            && Total(t', HoldsPermit) + HoldsPermit(t[i]) == Total(t, HoldsPermit) + HoldsPermit(s)
            && Total(t', IsBusy) + IsBusy(t[i]) == Total(t, IsBusy) + IsBusy(s)
            && Total(t', HasEnded) + HasEnded(t[i]) == Total(t, HasEnded) + HasEnded(s)
            && Total(t', IsSubmitted) + IsSubmitted(t[i]) == Total(t, IsSubmitted) + IsSubmitted(s)
            && Total(t', IsImported) + IsImported(t[i]) == Total(t, IsImported) + IsImported(s)
            && Total(t', IsFiled) + IsFiled(t[i]) == Total(t, IsFiled) + IsFiled(s)
            && Total(t', Remaining) + Remaining(t[i]) == Total(t, Remaining) + Remaining(s)
  {
    TotalOfUpdate(l.tasks, i, s, HoldsPermit);
    TotalOfUpdate(l.tasks, i, s, IsBusy);
    TotalOfUpdate(l.tasks, i, s, HasEnded);
    TotalOfUpdate(l.tasks, i, s, IsSubmitted);
    TotalOfUpdate(l.tasks, i, s, IsImported);
    TotalOfUpdate(l.tasks, i, s, IsFiled);
    TotalOfUpdate(l.tasks, i, s, Remaining);
  }

  /** A submitted task moves on without ending: nothing but the busy count can change. */
  lemma MidTaskMove(l: Loop, i: nat, s: Stage)
    requires IsConsistent(l) && i < |l.tasks|
    requires !l.tasks[i].Unsubmitted? && !l.tasks[i].Filed? && HasEnded(l.tasks[i]) == 0
    requires !s.Unsubmitted? && !s.Filed? && !s.Queued? && HasEnded(s) == 0
    requires l.tasks[i].Queued? ==> Total(l.tasks, IsBusy) < l.threads
    ensures IsConsistent(WithTask(l, i, s))
  {
    var l' := WithTask(l, i, s);
    StageChange(l, i, s);
    assert l'.tasks[..Collected(l)] == l.tasks[..Collected(l)];
  }

  lemma PublishKeeps(l: Loop, i: nat, o: Outcome)
    requires IsConsistent(l) && i < |l.tasks| && (l.tasks[i].Returned? || l.tasks[i].Compensated?)
    ensures IsConsistent(AfterPublish(l, i, o))
  {
    var l' := AfterPublish(l, i, o);
    StageChange(l, i, Published(o));
    ImportedEventsOfAppended(l.events, o);
    assert l'.tasks[..Collected(l)] == l.tasks[..Collected(l)];
  }

  lemma ReleaseKeeps(l: Loop, i: nat)
    requires IsConsistent(l) && i < |l.tasks| && l.tasks[i].Published?
    ensures IsConsistent(AfterRelease(l, i))
  {
    var l' := AfterRelease(l, i);
    StageChange(l, i, Finished(l.tasks[i].outcome));
    assert l'.tasks[..Collected(l)] == l.tasks[..Collected(l)];
  }

  lemma SubmitTaskKeeps(l: Loop)
    requires IsConsistent(l) && CanMove(l, SubmitTask)
    ensures IsConsistent(AfterSubmitTask(l))
  {
    StageChange(l, l.main.next, Queued);
  }

  lemma FilingKeeps(l: Loop, o: Outcome)
    requires IsConsistent(l) && (l.main.Acquiring? || l.main.Submitting?) && l.main.next < |l.tasks| && !o.ImportedAs?
    ensures IsConsistent(AfterFiling(l, o).(permits := l.permits + One(l.main.Submitting?)))
  {
    StageChange(l, l.main.next, Filed(o));
  }

  lemma CollectKeeps(l: Loop)
    requires IsConsistent(l) && CanMove(l, Collect)
    ensures IsConsistent(AfterCollect(l))
  {
    CollectKeepsIds(l);
    assert AfterCollect(l).tasks == l.tasks && AfterCollect(l).main == Collecting(l.main.next + 1);
  }

  lemma CollectKeepsIds(l: Loop)
    requires AreIdsCollected(l) && CanMove(l, Collect)
    ensures AreIdsCollected(AfterCollect(l))
  {
    OneMoreResult(l.tasks, l.main.next);
  }

  lemma OneMoreResult(tasks: seq<Stage>, k: nat)
    requires k < |tasks|
    ensures ResultIds(tasks[..k + 1]) == ResultIds(tasks[..k]) + if IsImported(tasks[k]) == 1 then [tasks[k].outcome.id] else []
  {
    assert tasks[..k + 1][..k] == tasks[..k] && tasks[..k + 1][k] == tasks[k];
  }

  /** Only submitted tasks end, so the join cannot be left early. */
  lemma EndedAreSubmitted(l: Loop)
    requires IsConsistent(l)
    ensures Total(l.tasks, HasEnded) <= l.submitted
  {
    if Total(l.tasks, IsSubmitted) < Total(l.tasks, HasEnded) {
      var i := TotalsCompare(l.tasks, IsSubmitted, HasEnded);
      assert false;
    }
  }

  lemma FoldKeeps(l: Loop)
    requires IsConsistent(l) && CanMove(l, FoldEvent)
    ensures IsConsistent(l.(events := l.events[1..], completed := l.completed + 1, counters := Folded(l.counters, l.events[0])))
  {
  }

  lemma MainMoveKeeps(tokens: Tokenizer, l: Loop, m: Move)
    requires IsConsistent(l) && CanMove(l, m)
    requires m.Acquire? || m.StopSubmitting? || m.EndDrain? || m.EndJoin? || m.EndCollect?
    ensures IsConsistent(Moved(tokens, l, m))
  {
    EndedAreSubmitted(l);
    assert Total(l.tasks[..0], IsImported) == 0;
  }

  lemma WriterDoesNotMatter(l: Loop, w: Dispatcher)
    requires IsConsistent(l)
    ensures IsConsistent(l.(writer := w))
  {
  }

  lemma PoolMoveKeeps(tokens: Tokenizer, l: Loop, m: Move)
    requires IsConsistent(l) && CanMove(l, m)
    requires m.StartTask? || m.SkipWrite? || m.ReceiveAnswer?
    ensures IsConsistent(Moved(tokens, l, m))
  {
    MidTaskMove(l, m.i, Moved(tokens, l, m).tasks[m.i]);
  }

  lemma WriterCallKeeps(tokens: Tokenizer, l: Loop, m: Move)
    requires IsConsistent(l) && CanMove(l, m)
    requires m.ReserveOwn? || m.RequestWrite? || m.Compensate? || m.WriterMove?
    ensures IsConsistent(Moved(tokens, l, m))
  {
    var l' := Moved(tokens, l, m);
    if !m.WriterMove? {
      MidTaskMove(l, m.i, l'.tasks[m.i]);
      WriterDoesNotMatter(WithTask(l, m.i, l'.tasks[m.i]), l'.writer);
    } else {
      WriterDoesNotMatter(l, l'.writer);
    }
  }

  lemma MoveKeepsConsistency(tokens: Tokenizer, l: Loop, m: Move)
    requires IsConsistent(l) && CanMove(l, m)
    ensures IsConsistent(Moved(tokens, l, m))
  {
    if m.StartTask? || m.SkipWrite? || m.ReceiveAnswer? {
      PoolMoveKeeps(tokens, l, m);
    } else if m.ReserveOwn? || m.RequestWrite? || m.Compensate? || m.WriterMove? {
      WriterCallKeeps(tokens, l, m);
    } else if m.Publish? {
      PublishKeeps(l, m.i, m.outcome);
    } else if m.ReleasePermit? {
      ReleaseKeeps(l, m.i);
    } else if m.SubmitTask? {
      SubmitTaskKeeps(l);
    } else if m.FileEntry? || m.FailExtraction? {
      FilingKeeps(l, if m.FileEntry? then Skipped else NotImported);
    } else if m.Collect? {
      CollectKeeps(l);
    } else if m.FoldEvent? {
      FoldKeeps(l);
    } else {
      MainMoveKeeps(tokens, l, m);
    }
  }

  lemma MoveKeepsWriter(tokens: Tokenizer, start: Tables, l: Loop, m: Move)
    requires Inv(tokens, start, l) && CanMove(l, m)
    ensures WriterDispatch.Inv(tokens, start, Moved(tokens, l, m).writer)
    ensures l.writer.log <= Moved(tokens, l, m).writer.log
  {
    match m
    case ReserveOwn(_) =>
      StepKeepsInv(tokens, start, l.writer, Forward(CatalogueRuns.Reserve(1)));
    case RequestWrite(_, e) =>
      StepKeepsInv(tokens, start, l.writer, Submit(e));
    case Compensate(i) =>
      StepKeepsInv(tokens, start, l.writer, Forward(CatalogueRuns.Remove(l.ids[i])));
    case WriterMove(step) =>
      StepKeepsInv(tokens, start, l.writer, step);
      StepExtends(tokens, start, l.writer, step);
    case _ =>
  }

  lemma TicketsStay(w: Dispatcher, w': Dispatcher, ticket: nat, id: BookId)
    requires w.log <= w'.log
    ensures IsTicketFor(w, ticket, id) ==> IsTicketFor(w', ticket, id)
  {
  }

  /** A stage whose ticket, if it has one, was issued for this id. */
  predicate HasOwnTicket(w: Dispatcher, s: Stage, id: BookId) {
    && (s.AwaitingWrite? ==> IsTicketFor(w, s.ticket, id))
    && (s.Returned? && s.answered.Some? ==> IsTicketFor(w, s.answered.value, id))
  }

  /** One task moves on and the log only grows. */
  lemma TicketsAfterChange(l: Loop, w': Dispatcher, i: nat, s: Stage)
    requires AreTicketsIssued(l) && l.writer.log <= w'.log && i < |l.tasks| && HasOwnTicket(w', s, l.ids[i])
    ensures AreTicketsIssued(WithTask(l, i, s).(writer := w'))
  {
    var l' := WithTask(l, i, s).(writer := w');
    forall j | 0 <= j < |l'.tasks| ensures HasOwnTicket(w', l'.tasks[j], l.ids[j]) {
      if j != i && l.tasks[j].AwaitingWrite? {
        TicketsStay(l.writer, w', l.tasks[j].ticket, l.ids[j]);
      } else if j != i && l.tasks[j].Returned? && l.tasks[j].answered.Some? {
        TicketsStay(l.writer, w', l.tasks[j].answered.value, l.ids[j]);
      }
    }
  }

  lemma WriterCallKeepsTickets(tokens: Tokenizer, start: Tables, l: Loop, m: Move)
    requires Inv(tokens, start, l) && CanMove(l, m) && (m.ReserveOwn? || m.RequestWrite? || m.Compensate?)
    ensures AreTicketsIssued(Moved(tokens, l, m))
  {
    var l' := Moved(tokens, l, m);
    MoveKeepsWriter(tokens, start, l, m);
    TicketsAfterChange(l, l'.writer, m.i, l'.tasks[m.i]);
  }

  lemma PoolMoveKeepsTickets(tokens: Tokenizer, l: Loop, m: Move)
    requires AreTicketsIssued(l) && CanMove(l, m)
    requires m.StartTask? || m.SkipWrite? || m.ReceiveAnswer? || m.Publish? || m.ReleasePermit?
    ensures AreTicketsIssued(Moved(tokens, l, m))
  {
    TicketsAfterChange(l, l.writer, m.i, Moved(tokens, l, m).tasks[m.i]);
  }

  lemma MainMoveKeepsTickets(tokens: Tokenizer, l: Loop, m: Move)
    requires AreTicketsIssued(l) && CanMove(l, m) && (m.SubmitTask? || m.FileEntry? || m.FailExtraction?)
    ensures AreTicketsIssued(Moved(tokens, l, m))
  {
    var i := l.main.next;
    TicketsAfterChange(l, l.writer, i, Moved(tokens, l, m).tasks[i]);
  }

  lemma MoveKeepsTickets(tokens: Tokenizer, start: Tables, l: Loop, m: Move)
    requires Inv(tokens, start, l) && CanMove(l, m)
    ensures AreTicketsIssued(Moved(tokens, l, m))
  {
    match m
    case ReserveOwn(_) | RequestWrite(_, _) | Compensate(_) => WriterCallKeepsTickets(tokens, start, l, m);
    case StartTask(_) | SkipWrite(_) | ReceiveAnswer(_) | Publish(_, _) | ReleasePermit(_) => PoolMoveKeepsTickets(tokens, l, m);
    case SubmitTask | FileEntry | FailExtraction => MainMoveKeepsTickets(tokens, l, m);
    case WriterMove(_) => MoveKeepsWriter(tokens, start, l, m);
    case _ =>
  }

  /** The answer that allows a task to report a book names the id the task asked for. */
  lemma PublishedIsOwn(tokens: Tokenizer, start: Tables, l: Loop, i: nat, o: Outcome)
    requires Inv(tokens, start, l) && CanMove(l, Publish(i, o)) && o.ImportedAs? && l.ids[i] > 0
    ensures o.id == l.ids[i]
  {
    AnswersBearOwnIds(tokens, start, l.writer, l.tasks[i].answered.value);
  }

  lemma ResultsAfterChange(l: Loop, i: nat, s: Stage)
    requires AreResultsOwn(l) && i < |l.tasks| && (IsImported(s) == 1 ==> s.outcome.id == l.ids[i])
    ensures AreResultsOwn(WithTask(l, i, s))
  {
  }

  lemma NothingElseImports(tokens: Tokenizer, l: Loop, m: Move)
    requires CanMove(l, m) && !m.Publish?
    ensures var l' := Moved(tokens, l, m);
            && l'.ids == l.ids && |l'.tasks| == |l.tasks|
            && forall i :: 0 <= i < |l'.tasks| && IsImported(l'.tasks[i]) == 1 ==>
                 IsImported(l.tasks[i]) == 1 && l.tasks[i].outcome == l'.tasks[i].outcome
  {
  }

  lemma ResultsAfterMove(l: Loop, l': Loop)
    requires AreResultsOwn(l) && l'.ids == l.ids && |l'.tasks| == |l.tasks|
    requires forall i :: 0 <= i < |l'.tasks| && IsImported(l'.tasks[i]) == 1 ==>
               IsImported(l.tasks[i]) == 1 && l.tasks[i].outcome == l'.tasks[i].outcome
    ensures AreResultsOwn(l')
  {
  }

  lemma PublishKeepsResultsOwn(tokens: Tokenizer, start: Tables, l: Loop, i: nat, o: Outcome)
    requires Inv(tokens, start, l) && CanMove(l, Publish(i, o))
    ensures AreResultsOwn(AfterPublish(l, i, o))
  {
    if o.ImportedAs? {
      PublishedIsOwn(tokens, start, l, i, o);
    }
    ResultsAfterChange(l, i, Published(o));
  }

  lemma MoveKeepsResultsOwn(tokens: Tokenizer, start: Tables, l: Loop, m: Move)
    requires Inv(tokens, start, l) && CanMove(l, m)
    ensures AreResultsOwn(Moved(tokens, l, m))
  {
    if m.Publish? {
      PublishKeepsResultsOwn(tokens, start, l, m.i, m.outcome);
    } else {
      NothingElseImports(tokens, l, m);
      ResultsAfterMove(l, Moved(tokens, l, m));
    }
  }

  /** The writer of the loop takes at most one step of its protocol, or a caller's step, at a time. */
  lemma WriterStays(tokens: Tokenizer, l: Loop, m: Move)
    requires CanMove(l, m) && !m.ReserveOwn? && !m.RequestWrite? && !m.Compensate? && !m.WriterMove?
    ensures Moved(tokens, l, m).writer == l.writer
  {
  }

  ghost predicate KeepsAnswers(w: Dispatcher, w': Dispatcher) {
    forall k :: k in w.answers ==> k in w'.answers && w'.answers[k] == w.answers[k]
  }

  /** Answers are never withdrawn, whoever moves. */
  lemma MoveKeepsAnswers(tokens: Tokenizer, start: Tables, l: Loop, m: Move)
    requires Inv(tokens, start, l) && CanMove(l, m)
    ensures KeepsAnswers(l.writer, Moved(tokens, l, m).writer)
  {
    match m
    case ReserveOwn(_) => StepExtends(tokens, start, l.writer, Forward(CatalogueRuns.Reserve(1)));
    case RequestWrite(_, e) => StepExtends(tokens, start, l.writer, Submit(e));
    case Compensate(i) => StepExtends(tokens, start, l.writer, Forward(CatalogueRuns.Remove(l.ids[i])));
    case WriterMove(step) => StepExtends(tokens, start, l.writer, step);
    case _ => WriterStays(tokens, l, m);
  }

  lemma AnswersStay(w: Dispatcher, w': Dispatcher, id: BookId)
    requires KeepsAnswers(w, w')
    ensures WasImported(w, id) ==> WasImported(w', id)
  {
  }

  /** One task moves on, the writer forgets no answer, and results are only added that it gave. */
  lemma ImportsAfterChange(l: Loop, l': Loop)
    requires AreImportsAnswered(l)
    requires KeepsAnswers(l.writer, l'.writer)
    requires forall i :: 0 <= i < |l'.tasks| && IsImported(l'.tasks[i]) == 1 ==>
               WasImported(l'.writer, l'.tasks[i].outcome.id)
               || (i < |l.tasks| && IsImported(l.tasks[i]) == 1 && l.tasks[i].outcome == l'.tasks[i].outcome)
    requires l'.importedIds == l.importedIds
             || exists id :: l'.importedIds == l.importedIds + [id] && WasImported(l.writer, id)
    ensures AreImportsAnswered(l')
  {
    forall i | 0 <= i < |l'.tasks| && IsImported(l'.tasks[i]) == 1 ensures WasImported(l'.writer, l'.tasks[i].outcome.id) {
      if i < |l.tasks| && IsImported(l.tasks[i]) == 1 && l.tasks[i].outcome == l'.tasks[i].outcome {
        AnswersStay(l.writer, l'.writer, l'.tasks[i].outcome.id);
      }
    }
    forall i | 0 <= i < |l'.importedIds| ensures WasImported(l'.writer, l'.importedIds[i]) {
      AnswersStay(l.writer, l'.writer, l'.importedIds[i]);
    }
  }

  lemma PublishIsAnswered(tokens: Tokenizer, start: Tables, l: Loop, i: nat, o: Outcome)
    requires Inv(tokens, start, l) && CanMove(l, Publish(i, o))
    ensures AreImportsAnswered(AfterPublish(l, i, o))
  {
    if o.ImportedAs? {
      assert l.writer.answers[l.tasks[i].answered.value] == CatalogueRuns.Imported(o.id);
    }
    ImportsAfterChange(l, AfterPublish(l, i, o));
  }

  lemma CollectedIsAnswered(tokens: Tokenizer, start: Tables, l: Loop)
    requires Inv(tokens, start, l) && CanMove(l, Collect)
    ensures AreImportsAnswered(AfterCollect(l))
  {
    var s := l.tasks[l.main.next];
    assert s.outcome.ImportedAs? ==> IsImported(s) == 1 && WasImported(l.writer, s.outcome.id);
    ImportsAfterChange(l, AfterCollect(l));
  }

  lemma MoveKeepsImportsAnswered(tokens: Tokenizer, start: Tables, l: Loop, m: Move)
    requires Inv(tokens, start, l) && CanMove(l, m)
    ensures AreImportsAnswered(Moved(tokens, l, m))
  {
    if m.Publish? {
      PublishIsAnswered(tokens, start, l, m.i, m.outcome);
    } else if m.Collect? {
      CollectedIsAnswered(tokens, start, l);
    } else {
      MoveKeepsAnswers(tokens, start, l, m);
      NothingElseImports(tokens, l, m);
      ImportsAfterChange(l, Moved(tokens, l, m));
    }
  }

  lemma MoveKeepsInv(tokens: Tokenizer, start: Tables, l: Loop, m: Move)
    requires Inv(tokens, start, l) && CanMove(l, m)
    ensures Inv(tokens, start, Moved(tokens, l, m))
  {
    MoveKeepsConsistency(tokens, l, m);
    MoveKeepsWriter(tokens, start, l, m);
    MoveKeepsTickets(tokens, start, l, m);
    MoveKeepsResultsOwn(tokens, start, l, m);
    MoveKeepsImportsAnswered(tokens, start, l, m);
  }

  // ---------------------------------------------------------------------------------------
  // Progress
  // ---------------------------------------------------------------------------------------

  function MainRank(l: Loop): nat
    requires IsSubmissionOrdered(l)
  {
    var n := |l.tasks|;
    match l.main
    case Acquiring(i) => 4 * (n - i) + n + 6
    case Submitting(i) => 4 * (n - i) + n + 5
    case Draining(i) => 4 * (n - i) + n + 4
    case Joining => n + 4
    case Collecting(i) => n + 3 - i
    case Done => 0
  }

  /** What is left to do for all threads together. */
  function Measure(l: Loop): nat
    requires IsSubmissionOrdered(l)
  {
    Total(l.tasks, Remaining) + |l.events| + Work(l.writer) + MainRank(l)
  }

  /** A task that moves on pays for the event it queues and the work it hands to the writer. */
  lemma TaskAdvances(l: Loop, l': Loop, i: nat, s: Stage)
    requires IsSubmissionOrdered(l) && IsSubmissionOrdered(l') && i < |l.tasks|
    requires l'.tasks == l.tasks[i := s] && l'.main == l.main
    requires Remaining(s) + |l'.events| + Work(l'.writer) < Remaining(l.tasks[i]) + |l.events| + Work(l.writer)
    ensures Measure(l') < Measure(l)
  {
    TotalOfUpdate(l.tasks, i, s, Remaining);
  }

  lemma TaskMoveShrinks(tokens: Tokenizer, l: Loop, m: Move)
    requires IsConsistent(l) && CanMove(l, m)
    requires m.StartTask? || m.SkipWrite? || m.ReceiveAnswer? || m.Publish? || m.ReleasePermit?
    requires IsSubmissionOrdered(l) && IsSubmissionOrdered(Moved(tokens, l, m))
    ensures Measure(Moved(tokens, l, m)) < Measure(l)
  {
    var l' := Moved(tokens, l, m);
    TaskAdvances(l, l', m.i, l'.tasks[m.i]);
  }

  lemma RequestShrinks(tokens: Tokenizer, l: Loop, i: nat, e: CatalogueRuns.BatchEntry)
    requires IsSubmissionOrdered(l) && CanMove(l, RequestWrite(i, e))
    requires IsSubmissionOrdered(Moved(tokens, l, RequestWrite(i, e)))
    ensures Measure(Moved(tokens, l, RequestWrite(i, e))) < Measure(l)
  {
    var l' := Moved(tokens, l, RequestWrite(i, e));
    TaskAdvances(l, l', i, l'.tasks[i]);
  }

  lemma CompensationShrinks(tokens: Tokenizer, l: Loop, i: nat)
    requires IsSubmissionOrdered(l) && IsPhaseConsistent(l.writer) && CanMove(l, Compensate(i))
    requires IsSubmissionOrdered(Moved(tokens, l, Compensate(i)))
    ensures Measure(Moved(tokens, l, Compensate(i))) < Measure(l)
  {
    WorkFalls(tokens, l.writer, Forward(CatalogueRuns.Remove(l.ids[i])));
    TaskAdvances(l, Moved(tokens, l, Compensate(i)), i, Compensated);
  }

  lemma ReservationShrinks(tokens: Tokenizer, l: Loop, i: nat)
    requires IsSubmissionOrdered(l) && IsPhaseConsistent(l.writer) && CanMove(l, ReserveOwn(i))
    requires IsSubmissionOrdered(Moved(tokens, l, ReserveOwn(i)))
    ensures Measure(Moved(tokens, l, ReserveOwn(i))) < Measure(l)
  {
    WorkFalls(tokens, l.writer, Forward(CatalogueRuns.Reserve(1)));
    TaskAdvances(l, Moved(tokens, l, ReserveOwn(i)), i, Accepted);
  }

  lemma WriterMoveShrinks(tokens: Tokenizer, l: Loop, step: Step)
    requires IsSubmissionOrdered(l) && IsPhaseConsistent(l.writer) && CanMove(l, WriterMove(step))
    requires IsSubmissionOrdered(Moved(tokens, l, WriterMove(step)))
    ensures Measure(Moved(tokens, l, WriterMove(step))) < Measure(l)
  {
    WorkFalls(tokens, l.writer, step);
  }

  lemma WriterCallShrinks(tokens: Tokenizer, l: Loop, m: Move)
    requires IsConsistent(l) && IsPhaseConsistent(l.writer) && CanMove(l, m)
    requires m.ReserveOwn? || m.RequestWrite? || m.Compensate? || m.WriterMove?
    requires IsConsistent(Moved(tokens, l, m))
    ensures Measure(Moved(tokens, l, m)) < Measure(l)
  {
    match m
    case RequestWrite(i, e) => RequestShrinks(tokens, l, i, e);
    case ReserveOwn(i) => ReservationShrinks(tokens, l, i);
    case Compensate(i) => CompensationShrinks(tokens, l, i);
    case WriterMove(step) => WriterMoveShrinks(tokens, l, step);
  }

  lemma ScanShrinks(tokens: Tokenizer, l: Loop, m: Move)
    requires IsConsistent(l) && CanMove(l, m) && (m.FileEntry? || m.FailExtraction? || m.SubmitTask?)
    requires IsConsistent(Moved(tokens, l, m))
    ensures Measure(Moved(tokens, l, m)) < Measure(l)
  {
    StageChange(l, l.main.next, Moved(tokens, l, m).tasks[l.main.next]);
  }

  lemma MainMoveShrinks(tokens: Tokenizer, l: Loop, m: Move)
    requires IsConsistent(l) && CanMove(l, m)
    requires m.Acquire? || m.StopSubmitting? || m.FoldEvent? || m.EndDrain? || m.EndJoin? || m.Collect? || m.EndCollect?
    requires IsConsistent(Moved(tokens, l, m))
    ensures Measure(Moved(tokens, l, m)) < Measure(l)
  {
  }

  /** Every step of every thread, idle wake-ups of the writer aside, leaves less to do. */
  lemma EveryMoveShrinks(tokens: Tokenizer, start: Tables, l: Loop, m: Move)
    requires Inv(tokens, start, l) && CanMove(l, m)
    ensures Inv(tokens, start, Moved(tokens, l, m))
    ensures Measure(Moved(tokens, l, m)) < Measure(l)
  {
    MoveKeepsInv(tokens, start, l, m);
    if m.StartTask? || m.SkipWrite? || m.ReceiveAnswer? || m.Publish? || m.ReleasePermit? {
      TaskMoveShrinks(tokens, l, m);
    } else if m.ReserveOwn? || m.RequestWrite? || m.Compensate? || m.WriterMove? {
      WriterCallShrinks(tokens, l, m);
    } else if m.FileEntry? || m.FailExtraction? || m.SubmitTask? {
      ScanShrinks(tokens, l, m);
    } else {
      MainMoveShrinks(tokens, l, m);
    }
  }

  /** A caller that waits for an answer either has it or leaves the writer something to do. */
  lemma WaitingTaskIsServed(tokens: Tokenizer, start: Tables, l: Loop, i: nat) returns (m: Move)
    requires Inv(tokens, start, l) && i < |l.tasks| && l.tasks[i].AwaitingWrite?
    ensures CanMove(l, m) && !m.StopSubmitting?
  {
    if l.tasks[i].ticket in l.writer.answers {
      m := ReceiveAnswer(i);
    } else {
      assert Unanswered(l.writer) != [];
      var step := WriterCanGoOn(l.writer);
      m := WriterMove(step);
    }
  }

  lemma BusyTaskCanMove(tokens: Tokenizer, start: Tables, l: Loop, i: nat) returns (m: Move)
    requires Inv(tokens, start, l) && i < |l.tasks| && IsBusy(l.tasks[i]) == 1
    ensures CanMove(l, m) && !m.StopSubmitting?
  {
    match l.tasks[i]
    case Running => m := SkipWrite(i);
    case Accepted => m := SkipWrite(i);
    case AwaitingWrite(_) => m := WaitingTaskIsServed(tokens, start, l, i);
    case Returned(_) => m := Publish(i, NotImported);
    case Compensated => m := Publish(i, NotImported);
    case Published(_) => m := ReleasePermit(i);
  }

  /** As long as some submitted task has not finished, the pool or the writer can go on. */
  lemma PoolCanMove(tokens: Tokenizer, start: Tables, l: Loop, i: nat) returns (m: Move)
    requires Inv(tokens, start, l) && i < |l.tasks| && HoldsPermit(l.tasks[i]) == 1
    ensures CanMove(l, m) && !m.StopSubmitting?
  {
    if l.tasks[i].Queued? {
      if Total(l.tasks, IsBusy) < l.threads {
        m := StartTask(i);
      } else {
        TotalOfNothing(l.tasks);
        var j := TotalsCompare(l.tasks, Nothing, IsBusy);
        m := BusyTaskCanMove(tokens, start, l, j);
      }
    } else {
      m := BusyTaskCanMove(tokens, start, l, i);
    }
  }

  lemma {:induction false} TotalOfNothing(tasks: seq<Stage>)
    ensures Total(tasks, Nothing) == 0
  {
    if tasks != [] {
      TotalOfNothing(tasks[..|tasks| - 1]);
    }
  }

  /**
    * No deadlock: until the main thread is done, some thread can take a step, and no
    * cancellation is needed for it unless all sources have been submitted.
    */
  lemma NeverStuck(tokens: Tokenizer, start: Tables, l: Loop) returns (m: Move)
    requires Inv(tokens, start, l) && !l.main.Done?
    ensures CanMove(l, m)
    ensures m.StopSubmitting? ==> l.scanned == |l.tasks|
  {
    match l.main
    case Acquiring(i) =>
      if i == |l.tasks| {
        m := StopSubmitting;
      } else if l.permits > 0 {
        m := Acquire;
      } else {
        TotalOfNothing(l.tasks);
        var j := TotalsCompare(l.tasks, Nothing, HoldsPermit);
        m := PoolCanMove(tokens, start, l, j);
      }
    case Submitting(_) => m := SubmitTask;
    case Draining(_) => m := if l.events == [] then EndDrain else FoldEvent;
    case Joining =>
      if l.completed >= l.submitted {
        m := EndJoin;
      } else if l.events != [] {
        m := FoldEvent;
      } else {
        var j := TotalsCompare(l.tasks, HasEnded, IsSubmitted);
        m := PoolCanMove(tokens, start, l, j);
      }
    case Collecting(i) =>
      if i >= l.scanned {
        m := EndCollect;
      } else if HasResult(l.tasks[i]) {
        m := Collect;
      } else {
        m := PoolCanMove(tokens, start, l, i);
      }
  }

  // ---------------------------------------------------------------------------------------
  // Whole runs
  // ---------------------------------------------------------------------------------------

  ghost predicate IsRun(tokens: Tokenizer, l: Loop, moves: seq<Move>)
    decreases |moves|
  {
    moves == [] || (CanMove(l, moves[0]) && IsRun(tokens, Moved(tokens, l, moves[0]), moves[1..]))
  }

  ghost function After(tokens: Tokenizer, l: Loop, moves: seq<Move>): Loop
    requires IsRun(tokens, l, moves)
    decreases |moves|
  {
    if moves == [] then l else After(tokens, Moved(tokens, l, moves[0]), moves[1..])
  }

  lemma {:induction false} RunKeepsInv(tokens: Tokenizer, start: Tables, l: Loop, moves: seq<Move>)
    requires Inv(tokens, start, l) && IsRun(tokens, l, moves)
    ensures Inv(tokens, start, After(tokens, l, moves))
    ensures |moves| + Measure(After(tokens, l, moves)) <= Measure(l)
    decreases |moves|
  {
    if moves != [] {
      EveryMoveShrinks(tokens, start, l, moves[0]);
      RunKeepsInv(tokens, start, Moved(tokens, l, moves[0]), moves[1..]);
    }
  }

  lemma {:induction false} TotalsOfUnsubmitted(n: nat)
    ensures var tasks := seq(n, i => Unsubmitted);
            && Total(tasks, HoldsPermit) == Total(tasks, IsBusy) == Total(tasks, HasEnded) == 0
            && Total(tasks, IsSubmitted) == Total(tasks, IsImported) == Total(tasks, IsFiled) == 0
  {
    if n > 0 {
      TotalsOfUnsubmitted(n - 1);
      assert seq(n, i => Unsubmitted)[..n - 1] == seq(n - 1, i => Unsubmitted);
    }
  }

  lemma BegunIsConsistent(threads: nat, ids: seq<BookId>, w: Dispatcher)
    requires threads > 0
    ensures IsConsistent(Begun(threads, ids, w))
  {
    TotalsOfUnsubmitted(|ids|);
  }

  lemma BegunInv(tokens: Tokenizer, start: Tables, threads: nat, ids: seq<BookId>, w: Dispatcher)
    requires threads > 0 && AreReservedIds(ids) && WriterDispatch.Inv(tokens, start, w)
    ensures Inv(tokens, start, Begun(threads, ids, w))
  {
    BegunIsConsistent(threads, ids, w);
  }

  /**
    * Every run of the parallel import is finite, and one that cannot be extended has ended with
    * the main thread done: each submitted task finished, each event folded, each permit back.
    */
  lemma ParallelImportEnds(tokens: Tokenizer, start: Tables, threads: nat, ids: seq<BookId>, w: Dispatcher, moves: seq<Move>)
    requires threads > 0 && AreReservedIds(ids) && WriterDispatch.Inv(tokens, start, w)
    requires IsRun(tokens, Begun(threads, ids, w), moves)
    ensures |moves| <= Measure(Begun(threads, ids, w))
    ensures var l := After(tokens, Begun(threads, ids, w), moves);
            && (l.main.Done? || exists m :: CanMove(l, m))
            && (l.main.Done? ==>
                  && l.completed == l.submitted && l.events == []
                  && l.permits == 2 * l.threads
                  && forall i :: 0 <= i < |l.tasks| ==> if i < l.scanned then HasResult(l.tasks[i]) else l.tasks[i].Unsubmitted?)
  {
    var begun := Begun(threads, ids, w);
    BegunInv(tokens, start, threads, ids, w);
    RunKeepsInv(tokens, start, begun, moves);
    var l := After(tokens, begun, moves);
    if l.main.Done? {
      DoneIsComplete(tokens, start, l);
    } else {
      var m := NeverStuck(tokens, start, l);
    }
  }

  lemma DoneIsComplete(tokens: Tokenizer, start: Tables, l: Loop)
    requires Inv(tokens, start, l) && l.main.Done?
    ensures l.events == [] && l.permits == 2 * l.threads
    ensures |l.importedIds| == l.counters.imported
  {
    EndedAreSubmitted(l);
    TotalOfNothing(l.tasks);
    if Total(l.tasks, HoldsPermit) > 0 {
      var i := TotalsCompare(l.tasks, Nothing, HoldsPermit);
      assert false;
    }
    UnsubmittedTail(l.tasks, l.scanned);
  }

  /** Tasks that were never submitted contribute no imported result. */
  lemma {:induction false} UnsubmittedTail(tasks: seq<Stage>, k: nat)
    requires k <= |tasks| && forall i :: k <= i < |tasks| ==> tasks[i].Unsubmitted?
    ensures Total(tasks[..k], IsImported) == Total(tasks, IsImported)
    decreases |tasks| - k
  {
    if k == |tasks| {
      assert tasks[..k] == tasks;
    } else {
      UnsubmittedTail(tasks, k + 1);
      assert tasks[..k + 1][..k] == tasks[..k];
    }
  }

  /**
    * Accounting. Whenever progress is reported the processed entries are the imported, failed
    * and skipped ones, and at the end the imported count is the number of collected ids.
    */
  lemma ImportIsAccounted(tokens: Tokenizer, start: Tables, threads: nat, ids: seq<BookId>, w: Dispatcher, moves: seq<Move>)
    requires threads > 0 && AreReservedIds(ids) && WriterDispatch.Inv(tokens, start, w)
    requires IsRun(tokens, Begun(threads, ids, w), moves)
    ensures var l := After(tokens, Begun(threads, ids, w), moves);
            && l.counters.processed == l.counters.imported + l.counters.failed + l.counters.skipped
            && l.counters.processed <= l.scanned
            && (l.main.Done? ==> |l.importedIds| == l.counters.imported && l.counters.processed == l.scanned)
  {
    var begun := Begun(threads, ids, w);
    BegunInv(tokens, start, threads, ids, w);
    RunKeepsInv(tokens, start, begun, moves);
    var l := After(tokens, begun, moves);
    EndedAreSubmitted(l);
    if l.main.Done? {
      DoneIsComplete(tokens, start, l);
    }
  }

  // ---------------------------------------------------------------------------------------
  // The counters as counts of results
  // ---------------------------------------------------------------------------------------

  function CountsAsFailed(o: Outcome): nat { One(o.NotImported?) }
  function CountsAsSkipped(o: Outcome): nat { One(o.Skipped? || o.Cancelled?) }
  function CountsAsCancelled(o: Outcome): nat { One(o.Cancelled?) }

  /** What a task adds to a count of results; one that is under way adds nothing. */
  function Counted(s: Stage, f: Outcome -> nat): nat {
    if s.Filed? || s.Published? || s.Finished? then f(s.outcome) else 0
  }

  function ResultCount(tasks: seq<Stage>, f: Outcome -> nat): nat {
    if tasks == [] then 0 else ResultCount(tasks[..|tasks| - 1], f) + Counted(tasks[|tasks| - 1], f)
  }

  function EventCount(events: seq<Outcome>, f: Outcome -> nat): nat {
    if events == [] then 0 else f(events[0]) + EventCount(events[1..], f)
  }

  lemma {:induction false} ResultCountOfUpdate(tasks: seq<Stage>, i: nat, s: Stage, f: Outcome -> nat)
    requires i < |tasks|
    ensures ResultCount(tasks[i := s], f) + Counted(tasks[i], f) == ResultCount(tasks, f) + Counted(s, f)
  {
    var last := |tasks| - 1;
    if i < last {
      assert tasks[i := s][..last] == tasks[..last][i := s];
      ResultCountOfUpdate(tasks[..last], i, s, f);
    } else {
      assert tasks[i := s][..last] == tasks[..last];
    }
  }

  lemma {:induction false} EventCountOfAppended(events: seq<Outcome>, o: Outcome, f: Outcome -> nat)
    ensures EventCount(events + [o], f) == EventCount(events, f) + f(o)
  {
    if events == [] {
      assert (events + [o])[1..] == [];
    } else {
      assert (events + [o])[1..] == events[1..] + [o];
      EventCountOfAppended(events[1..], o, f);
    }
  }

  /** The results that have been folded: those that are there without those still in the queue. */
  function FoldedCount(l: Loop, f: Outcome -> nat): int {
    ResultCount(l.tasks, f) - EventCount(l.events, f)
  }

  /** What the move folds into the counters, if anything. */
  function FoldedBy(l: Loop, m: Move): Option<Outcome> {
    match m
    case FoldEvent => if l.events != [] then Some(l.events[0]) else None
    case FileEntry => Some(Skipped)
    case FailExtraction => Some(NotImported)
    case _ => None
  }

  lemma ChangeCounts(l: Loop, i: nat, s: Stage, f: Outcome -> nat)
    requires i < |l.tasks|
    ensures FoldedCount(WithTask(l, i, s), f) == FoldedCount(l, f) + Counted(s, f) - Counted(l.tasks[i], f)
  {
    ResultCountOfUpdate(l.tasks, i, s, f);
  }

  lemma PublishCounts(l: Loop, i: nat, o: Outcome, f: Outcome -> nat)
    requires i < |l.tasks| && (l.tasks[i].Returned? || l.tasks[i].Compensated?)
    ensures FoldedCount(AfterPublish(l, i, o), f) == FoldedCount(l, f)
  {
    ChangeCounts(l, i, Published(o), f);
    EventCountOfAppended(l.events, o, f);
  }

  lemma TaskMoveCounts(tokens: Tokenizer, l: Loop, m: Move, f: Outcome -> nat)
    requires CanMove(l, m)
    requires m.StartTask? || m.ReserveOwn? || m.RequestWrite? || m.SkipWrite? || m.ReceiveAnswer? || m.Compensate? || m.ReleasePermit?
    ensures FoldedCount(Moved(tokens, l, m), f) == FoldedCount(l, f)
  {
    ChangeCounts(l, m.i, Moved(tokens, l, m).tasks[m.i], f);
  }

  /** One move folds at most one result, and it counts for what it is. */
  lemma MoveCounts(tokens: Tokenizer, l: Loop, m: Move, f: Outcome -> nat)
    requires IsSubmissionOrdered(l) && CanMove(l, m)
    ensures FoldedCount(Moved(tokens, l, m), f) == FoldedCount(l, f) + if FoldedBy(l, m).Some? then f(FoldedBy(l, m).value) else 0
  {
    match m
    case Publish(i, o) => PublishCounts(l, i, o, f);
    case SubmitTask => ChangeCounts(l, l.main.next, Queued, f);
    case FileEntry => ChangeCounts(l, l.main.next, Filed(Skipped), f);
    case FailExtraction => ChangeCounts(l, l.main.next, Filed(NotImported), f);
    case StartTask(_) | ReserveOwn(_) | RequestWrite(_, _) | SkipWrite(_) | ReceiveAnswer(_) | Compensate(_) | ReleasePermit(_) =>
      TaskMoveCounts(tokens, l, m, f);
    case _ =>
  }

  /** Failed and skipped are counts of folded results, and the flag says that one of them was cancelled. */
  ghost predicate CountsResults(l: Loop) {
    && l.counters.failed == FoldedCount(l, CountsAsFailed)
    && l.counters.skipped == FoldedCount(l, CountsAsSkipped)
    && FoldedCount(l, CountsAsCancelled) >= 0
    && (l.counters.wasCancelled <==> FoldedCount(l, CountsAsCancelled) > 0)
  }

  /** Counters change only by the result that a move folds. */
  lemma MoveFolds(tokens: Tokenizer, l: Loop, m: Move)
    requires CanMove(l, m)
    ensures Moved(tokens, l, m).counters == if FoldedBy(l, m).Some? then Folded(l.counters, FoldedBy(l, m).value) else l.counters
  {
  }

  lemma MoveKeepsResultCounts(tokens: Tokenizer, l: Loop, m: Move)
    requires IsSubmissionOrdered(l) && CanMove(l, m) && CountsResults(l)
    ensures CountsResults(Moved(tokens, l, m))
  {
    MoveFolds(tokens, l, m);
    MoveCounts(tokens, l, m, CountsAsFailed);
    MoveCounts(tokens, l, m, CountsAsSkipped);
    MoveCounts(tokens, l, m, CountsAsCancelled);
  }

  lemma {:induction false} RunKeepsResultCounts(tokens: Tokenizer, l: Loop, moves: seq<Move>)
    requires IsConsistent(l) && IsRun(tokens, l, moves) && CountsResults(l)
    ensures CountsResults(After(tokens, l, moves))
    decreases |moves|
  {
    if moves != [] {
      MoveKeepsConsistency(tokens, l, moves[0]);
      MoveKeepsResultCounts(tokens, l, moves[0]);
      RunKeepsResultCounts(tokens, Moved(tokens, l, moves[0]), moves[1..]);
    }
  }

  lemma {:induction false} NoResultsYet(n: nat, f: Outcome -> nat)
    ensures ResultCount(seq(n, i => Unsubmitted), f) == 0
  {
    if n > 0 {
      NoResultsYet(n - 1, f);
      assert seq(n, i => Unsubmitted)[..n - 1] == seq(n - 1, i => Unsubmitted);
    }
  }

  /**
    * At the end the counters are the numbers of failed results and of skipped or cancelled ones,
    * and the import counts as cancelled exactly if some result was.
    */
  lemma CountersCountResults(tokens: Tokenizer, threads: nat, ids: seq<BookId>, w: Dispatcher, moves: seq<Move>)
    requires threads > 0 && IsRun(tokens, Begun(threads, ids, w), moves)
    ensures var l := After(tokens, Begun(threads, ids, w), moves);
            l.main.Done? && l.events == [] ==>
              && l.counters.failed == ResultCount(l.tasks, CountsAsFailed)
              && l.counters.skipped == ResultCount(l.tasks, CountsAsSkipped)
              && (l.counters.wasCancelled <==> ResultCount(l.tasks, CountsAsCancelled) > 0)
  {
    var begun := Begun(threads, ids, w);
    BegunIsConsistent(threads, ids, w);
    NoResultsYet(|ids|, CountsAsFailed);
    NoResultsYet(|ids|, CountsAsSkipped);
    NoResultsYet(|ids|, CountsAsCancelled);
    RunKeepsResultCounts(tokens, begun, moves);
  }

  lemma {:induction false} ResultIdsAreOwn(tasks: seq<Stage>, ids: seq<BookId>)
    requires AreReservedIds(ids) && |tasks| <= |ids|
    requires forall i :: 0 <= i < |tasks| && IsImported(tasks[i]) == 1 ==> tasks[i].outcome.id == ids[i]
    ensures forall x :: x in ResultIds(tasks) ==> exists i :: 0 <= i < |tasks| && ids[i] == x
    ensures forall a, b :: 0 <= a < b < |ResultIds(tasks)| ==> ResultIds(tasks)[a] != ResultIds(tasks)[b]
  {
    if tasks != [] {
      var last := |tasks| - 1;
      var before := ResultIds(tasks[..last]);
      ResultIdsAreOwn(tasks[..last], ids);
      forall x | x in before ensures x != ids[last] {
        var i :| 0 <= i < last && ids[i] == x;
      }
      assert forall a :: 0 <= a < |before| ==> before[a] in before;
    }
  }

  /**
    * Every collected id is one that the writer answered with, belongs to one of the sources and is
    * listed once, in whatever order the threads ran: a list that can be rolled back.
    */
  lemma CollectedIdsWereImported(tokens: Tokenizer, start: Tables, threads: nat, ids: seq<BookId>, w: Dispatcher, moves: seq<Move>)
    requires threads > 0 && AreReservedIds(ids) && WriterDispatch.Inv(tokens, start, w)
    requires IsRun(tokens, Begun(threads, ids, w), moves)
    ensures var l := After(tokens, Begun(threads, ids, w), moves);
            && (forall i :: 0 <= i < |l.importedIds| ==> WasImported(l.writer, l.importedIds[i]) && l.importedIds[i] in ids)
            && (forall a, b :: 0 <= a < b < |l.importedIds| ==> l.importedIds[a] != l.importedIds[b])
  {
    BegunInv(tokens, start, threads, ids, w);
    RunKeepsInv(tokens, start, Begun(threads, ids, w), moves);
    RunKeepsIds(tokens, Begun(threads, ids, w), moves);
    var l := After(tokens, Begun(threads, ids, w), moves);
    var results := l.tasks[..Collected(l)];
    ResultIdsAreOwn(results, l.ids);
    forall i | 0 <= i < |l.importedIds| ensures l.importedIds[i] in ids {
      assert l.importedIds[i] in ResultIds(results);
    }
  }

  lemma {:induction false} RunKeepsIds(tokens: Tokenizer, l: Loop, moves: seq<Move>)
    requires IsRun(tokens, l, moves)
    ensures After(tokens, l, moves).ids == l.ids
    decreases |moves|
  {
    if moves != [] {
      RunKeepsIds(tokens, Moved(tokens, l, moves[0]), moves[1..]);
    }
  }

  // ---------------------------------------------------------------------------------------
  // A run that succeeds
  // ---------------------------------------------------------------------------------------

  ghost predicate CanLead(tokens: Tokenizer, l: Loop, l': Loop) {
    exists moves :: IsRun(tokens, l, moves) && After(tokens, l, moves) == l'
  }

  lemma MoveLeads(tokens: Tokenizer, l: Loop, m: Move, l': Loop, end: Loop)
    requires CanMove(l, m) && l' == Moved(tokens, l, m) && CanLead(tokens, l', end)
    ensures CanLead(tokens, l, end)
  {
    var moves :| IsRun(tokens, l', moves) && After(tokens, l', moves) == end;
    assert ([m] + moves)[1..] == moves;
    assert IsRun(tokens, l, [m] + moves) && After(tokens, l, [m] + moves) == end;
  }

  /** An import of one source, at a stage of its task. */
  function OneSource(threads: nat, id: BookId, stage: Stage, main: MainPhase, w: Dispatcher): Loop
    requires threads > 0
  {
    Begun(threads, [id], w).(tasks := [stage], main := main, scanned := 1, submitted := 1, permits := 2 * threads - 1)
  }

  /** The writer with one accepted request: `phase` and `queue` say how far it has come. */
  function OneRequest(t: Tables, e: CatalogueRuns.BatchEntry, queue: seq<Request>, phase: Phase, faults: seq<bool>): Dispatcher {
    Started(t).(queue := queue, phase := phase, log := [e],
                history := [Direct(CatalogueRuns.Reserve(1))] + if faults == [] then [] else [Write(e, faults[0])])
  }

  lemma SubmissionLeads(tokens: Tokenizer, threads: nat, id: BookId, t: Tables, end: Loop)
    requires threads > 0 && CanLead(tokens, OneSource(threads, id, Queued, Joining, Started(t)), end)
    ensures CanLead(tokens, Begun(threads, [id], Started(t)), end)
  {
    var begun := Begun(threads, [id], Started(t));
    var taken := begun.(permits := 2 * threads - 1, main := Submitting(0));
    var queued := OneSource(threads, id, Queued, Draining(0), Started(t));
    assert begun.tasks == [Unsubmitted] && [Unsubmitted][0 := Queued] == [Queued];
    MoveLeads(tokens, queued.(main := Acquiring(1)), StopSubmitting, queued.(main := Joining), end);
    MoveLeads(tokens, queued, EndDrain, queued.(main := Acquiring(1)), end);
    MoveLeads(tokens, taken, SubmitTask, queued, end);
    MoveLeads(tokens, begun, Acquire, taken, end);
  }

  function AcceptedSource(threads: nat, id: BookId, t: Tables): Loop
    requires threads > 0
  {
    OneSource(threads, id, Accepted, Joining, Started(t).(history := [Direct(CatalogueRuns.Reserve(1))]))
  }

  lemma AskingLeads(tokens: Tokenizer, threads: nat, id: BookId, t: Tables, e: CatalogueRuns.BatchEntry, end: Loop)
    requires threads > 0 && e.book.id == id
    requires CanLead(tokens, OneSource(threads, id, AwaitingWrite(0), Joining, OneRequest(t, e, [Request(0, e)], Waiting, [])), end)
    ensures CanLead(tokens, AcceptedSource(threads, id, t), end)
  {
    var asked := OneSource(threads, id, AwaitingWrite(0), Joining, OneRequest(t, e, [Request(0, e)], Waiting, []));
    assert [Accepted][0 := AwaitingWrite(0)] == [AwaitingWrite(0)];
    MoveLeads(tokens, AcceptedSource(threads, id, t), RequestWrite(0, e), asked, end);
  }

  lemma StartingLeads(tokens: Tokenizer, threads: nat, id: BookId, t: Tables, end: Loop)
    requires threads > 0 && CanLead(tokens, AcceptedSource(threads, id, CatalogueRuns.Reserved(t, 1)), end)
    ensures CanLead(tokens, OneSource(threads, id, Queued, Joining, Started(t)), end)
  {
    var queued := OneSource(threads, id, Queued, Joining, Started(t));
    var running := OneSource(threads, id, Running, Joining, Started(t));
    assert [Queued][0 := Running] == [Running] && [Running][0 := Accepted] == [Accepted];
    assert Total([Queued], IsBusy) == 0;
    MoveLeads(tokens, running, ReserveOwn(0), AcceptedSource(threads, id, CatalogueRuns.Reserved(t, 1)), end);
    MoveLeads(tokens, queued, StartTask(0), running, end);
  }

  lemma WriterMoveLeads(tokens: Tokenizer, l: Loop, step: Step, w: Dispatcher, end: Loop)
    requires IsWriterStep(step) && IsEnabled(l.writer, step) && !IsIdle(l.writer, step) && w == Next(tokens, l.writer, step)
    requires CanLead(tokens, l.(writer := w), end)
    ensures CanLead(tokens, l, end)
  {
    MoveLeads(tokens, l, WriterMove(step), l.(writer := w), end);
  }

  lemma WriterTakesOne(tokens: Tokenizer, t: Tables, e: CatalogueRuns.BatchEntry)
    ensures var asked, taken := OneRequest(t, e, [Request(0, e)], Waiting, []), OneRequest(t, e, [], Holding([Request(0, e)]), []);
            IsEnabled(asked, Take) && !IsIdle(asked, Take) && Next(tokens, asked, Take) == taken
  {
    assert [Request(0, e)][..1] == [Request(0, e)] && [Request(0, e)][1..] == [];
  }

  lemma WriterAddsOne(tokens: Tokenizer, t: Tables, e: CatalogueRuns.BatchEntry)
    requires e.book.id > 0 && e.book.id !in t.books && !CatalogueRuns.IsDuplicate(t, e)
    ensures var taken := OneRequest(t, e, [], Holding([Request(0, e)]), []);
            && IsEnabled(taken, BatchReturns([false]))
            && Next(tokens, taken, BatchReturns([false])) ==
               OneRequest(t, e, [], Answering([Request(0, e)], [CatalogueRuns.Imported(e.book.id)]), [false])
                 .(tables := CatalogueRuns.Inserted(tokens, t, e.book))
  {
    CatalogueRuns.AddAllOfOne(tokens, t, e, false);
    assert Entries([Request(0, e)]) == [e] && Writes([e], [false]) == [Write(e, false)];
  }

  lemma WriterAnswersOne(tokens: Tokenizer, added: Tables, t: Tables, e: CatalogueRuns.BatchEntry, answer: CatalogueRuns.BatchResult)
    ensures var written := OneRequest(t, e, [], Answering([Request(0, e)], [answer]), [false]).(tables := added);
            && IsEnabled(written, AnswerNext)
            && Next(tokens, written, AnswerNext) ==
               OneRequest(t, e, [], Waiting, [false]).(tables := added, answers := map[0 := answer])
  {
    assert map[][0 := answer] == map[0 := answer];
  }

  lemma AnswerLeads(tokens: Tokenizer, l: Loop, t: Tables, e: CatalogueRuns.BatchEntry, end: Loop)
    requires e.book.id > 0 && e.book.id !in t.books && !CatalogueRuns.IsDuplicate(t, e)
    requires l.writer == OneRequest(t, e, [], Holding([Request(0, e)]), [])
    requires CanLead(tokens, l.(writer := OneRequest(t, e, [], Waiting, [false])
                                            .(tables := CatalogueRuns.Inserted(tokens, t, e.book),
                                              answers := map[0 := CatalogueRuns.Imported(e.book.id)])), end)
    ensures CanLead(tokens, l, end)
  {
    var added, answer := CatalogueRuns.Inserted(tokens, t, e.book), CatalogueRuns.Imported(e.book.id);
    var written := OneRequest(t, e, [], Answering([Request(0, e)], [answer]), [false]).(tables := added);
    WriterAddsOne(tokens, t, e);
    WriterAnswersOne(tokens, added, t, e, answer);
    WriterMoveLeads(tokens, l.(writer := written), AnswerNext, written.(phase := Waiting, answers := map[0 := answer]), end);
    WriterMoveLeads(tokens, l, BatchReturns([false]), written, end);
  }

  lemma WriterLeads(tokens: Tokenizer, l: Loop, t: Tables, e: CatalogueRuns.BatchEntry, end: Loop)
    requires e.book.id > 0 && e.book.id !in t.books && !CatalogueRuns.IsDuplicate(t, e)
    requires l.writer == OneRequest(t, e, [Request(0, e)], Waiting, [])
    requires CanLead(tokens, l.(writer := OneRequest(t, e, [], Waiting, [false])
                                            .(tables := CatalogueRuns.Inserted(tokens, t, e.book),
                                              answers := map[0 := CatalogueRuns.Imported(e.book.id)])), end)
    ensures CanLead(tokens, l, end)
  {
    var taken := l.(writer := OneRequest(t, e, [], Holding([Request(0, e)]), []));
    WriterTakesOne(tokens, t, e);
    AnswerLeads(tokens, taken, t, e, end);
    WriterMoveLeads(tokens, l, Take, taken.writer, end);
  }

  lemma WriteLeads(tokens: Tokenizer, threads: nat, id: BookId, t: Tables, e: CatalogueRuns.BatchEntry, w: Dispatcher, end: Loop)
    requires threads > 0 && e.book.id == id > 0 && id !in t.books && !CatalogueRuns.IsDuplicate(t, e)
    requires w == OneRequest(t, e, [], Waiting, [false])
                    .(tables := CatalogueRuns.Inserted(tokens, t, e.book), answers := map[0 := CatalogueRuns.Imported(id)])
    requires CanLead(tokens, OneSource(threads, id, AwaitingWrite(0), Joining, w), end)
    ensures CanLead(tokens, OneSource(threads, id, AwaitingWrite(0), Joining, OneRequest(t, e, [Request(0, e)], Waiting, [])), end)
  {
    var l := OneSource(threads, id, AwaitingWrite(0), Joining, OneRequest(t, e, [Request(0, e)], Waiting, []));
    assert l.(writer := w) == OneSource(threads, id, AwaitingWrite(0), Joining, w);
    WriterLeads(tokens, l, t, e, end);
  }

  /** All moves have been made: the one result has been counted and its id listed. */
  function Succeeded(threads: nat, id: BookId, w: Dispatcher): Loop
    requires threads > 0
  {
    OneSource(threads, id, Finished(ImportedAs(id)), Done, w)
      .(permits := 2 * threads, completed := 1, counters := Counters(1, 1, 0, 0, false), importedIds := [id])
  }

  lemma PublishingLeads(tokens: Tokenizer, threads: nat, id: BookId, w: Dispatcher, end: Loop)
    requires threads > 0 && 0 in w.answers && w.answers[0] == CatalogueRuns.Imported(id)
    requires CanLead(tokens, OneSource(threads, id, Finished(ImportedAs(id)), Joining, w)
                               .(permits := 2 * threads, events := [ImportedAs(id)]), end)
    ensures CanLead(tokens, OneSource(threads, id, AwaitingWrite(0), Joining, w), end)
  {
    var o := ImportedAs(id);
    var waiting := OneSource(threads, id, AwaitingWrite(0), Joining, w);
    var returned := OneSource(threads, id, Returned(Some(0)), Joining, w);
    var published := OneSource(threads, id, Published(o), Joining, w).(events := [o]);
    var released := OneSource(threads, id, Finished(o), Joining, w).(permits := 2 * threads, events := [o]);
    assert [AwaitingWrite(0)][0 := Returned(Some(0))] == [Returned(Some(0))];
    assert [Returned(Some(0))][0 := Published(o)] == [Published(o)] && [Published(o)][0 := Finished(o)] == [Finished(o)];
    MoveLeads(tokens, published, ReleasePermit(0), released, end);
    MoveLeads(tokens, returned, Publish(0, o), published, end);
    MoveLeads(tokens, waiting, ReceiveAnswer(0), returned, end);
  }

  lemma CollectingLeads(tokens: Tokenizer, threads: nat, id: BookId, w: Dispatcher)
    requires threads > 0
    ensures CanLead(tokens, OneSource(threads, id, Finished(ImportedAs(id)), Joining, w)
                              .(permits := 2 * threads, events := [ImportedAs(id)]), Succeeded(threads, id, w))
  {
    var end := Succeeded(threads, id, w);
    var collected := end.(main := Collecting(1));
    var collecting := collected.(main := Collecting(0), importedIds := []);
    var folded := collecting.(main := Joining);
    var released := folded.(events := [ImportedAs(id)], completed := 0, counters := Counters(0, 0, 0, 0, false));
    assert IsRun(tokens, end, []) && After(tokens, end, []) == end;
    MoveLeads(tokens, collected, EndCollect, end, end);
    MoveLeads(tokens, collecting, Collect, collected, end);
    MoveLeads(tokens, folded, EndJoin, collecting, end);
    MoveLeads(tokens, released, FoldEvent, folded, end);
  }

  /**
    * Importing one book under a free id can succeed: some run adds it to the catalogue, lists its id
    * and counts it as imported.
    */
  lemma ImportCanSucceed(tokens: Tokenizer, threads: nat, t: Tables, e: CatalogueRuns.BatchEntry)
    requires threads > 0 && e.book.id > 0 && e.book.id !in t.books && !CatalogueRuns.IsDuplicate(t, e)
    ensures exists moves ::
              && IsRun(tokens, Begun(threads, [e.book.id], Started(t)), moves)
              && var l := After(tokens, Begun(threads, [e.book.id], Started(t)), moves);
                 && l.main.Done? && l.importedIds == [e.book.id] && l.counters == Counters(1, 1, 0, 0, false)
                 && l.writer.tables == CatalogueRuns.Inserted(tokens, CatalogueRuns.Reserved(t, 1), e.book)
  {
    var id, t' := e.book.id, CatalogueRuns.Reserved(t, 1);
    var w := OneRequest(t', e, [], Waiting, [false])
               .(tables := CatalogueRuns.Inserted(tokens, t', e.book), answers := map[0 := CatalogueRuns.Imported(id)]);
    var end := Succeeded(threads, id, w);
    assert CatalogueRuns.HashMatches(t', e.book.sha256) == CatalogueRuns.HashMatches(t, e.book.sha256);
    CollectingLeads(tokens, threads, id, w);
    PublishingLeads(tokens, threads, id, w, end);
    WriteLeads(tokens, threads, id, t', e, w, end);
    AskingLeads(tokens, threads, id, t', e, end);
    StartingLeads(tokens, threads, id, t, end);
    SubmissionLeads(tokens, threads, id, t, end);
    var moves :| IsRun(tokens, Begun(threads, [id], Started(t)), moves) && After(tokens, Begun(threads, [id], Started(t)), moves) == end;
  }
}
