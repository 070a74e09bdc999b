/**
  * The parallel import and the index together: imports write through the writer thread under
  * reserved ids, so their runs keep the index in agreement, however the threads interleave.
  */
module ImportAgreement {
  import opened Catalogue
  import CatalogueRuns
  import opened ImportLoop
  import opened WriterDispatch
  import opened WriterRuns

  /** Tasks that have not asked for their write yet. */
  predicate MayStillWrite(s: Stage) {
    s.Unsubmitted? || s.Queued? || s.Running? || s.Accepted?
  }

  /** The reserved ids that are still to be used. */
  function FreeIds(l: Loop): set<BookId> {
    set i | 0 <= i < |l.tasks| && i < |l.ids| && MayStillWrite(l.tasks[i]) :: l.ids[i]
  }

  lemma FreeIdsShrink(tokens: Tokenizer, l: Loop, m: Move)
    requires CanMove(l, m) && IsSubmissionOrdered(l)
    ensures var l' := Moved(tokens, l, m);
            && l'.ids == l.ids && |l'.tasks| == |l.tasks|
            && forall i :: 0 <= i < |l.tasks| && MayStillWrite(l'.tasks[i]) ==>
                 MayStillWrite(l.tasks[i]) && !(m.RequestWrite? && m.i == i)
  {
  }

  /** What is free after a move was free before, and a write has used up the id of its task. */
  lemma FreeIdsAfter(tokens: Tokenizer, l: Loop, m: Move)
    requires CanMove(l, m) && IsSubmissionOrdered(l) && AreReservedIds(l.ids)
    ensures FreeIds(Moved(tokens, l, m)) <= FreeIds(l)
    ensures m.RequestWrite? ==> l.ids[m.i] in FreeIds(l) && l.ids[m.i] !in FreeIds(Moved(tokens, l, m))
  {
    FreeIdsShrink(tokens, l, m);
  }

  lemma CallKeepsReserved(tokens: Tokenizer, start: State, l: Loop, l': Loop, step: Step)
    requires IsLawful(tokens) && IsEnabled(l.writer, step) && l'.writer == Next(tokens, l.writer, step)
    requires step.Submit? ==> step.entry.book.id in FreeIds(l) && step.entry.book.id !in FreeIds(l')
    requires step.Forward? ==> step.op.Reserve? || step.op.Remove?
    requires IsReserved(tokens, start, l.writer, FreeIds(l)) && IsTrustedHistory(l.writer.history) && FreeIds(l') <= FreeIds(l)
    ensures IsReserved(tokens, start, l'.writer, FreeIds(l')) && IsTrustedHistory(l'.writer.history)
  {
    StepKeepsReserved(tokens, start, l.writer, FreeIds(l), step);
    StepKeepsTrust(tokens, l.writer, step);
    FewerFree(tokens, start, l'.writer, FreeAfter(l.writer, step, FreeIds(l)), FreeIds(l'));
  }

  lemma MoveKeepsReserved(tokens: Tokenizer, start: State, l: Loop, m: Move)
    requires IsLawful(tokens) && CanMove(l, m) && IsSubmissionOrdered(l) && AreReservedIds(l.ids)
    requires IsReserved(tokens, start, l.writer, FreeIds(l)) && IsTrustedHistory(l.writer.history)
    ensures var l' := Moved(tokens, l, m);
            l'.ids == l.ids && IsReserved(tokens, start, l'.writer, FreeIds(l')) && IsTrustedHistory(l'.writer.history)
  {
    var l' := Moved(tokens, l, m);
    FreeIdsAfter(tokens, l, m);
    match m
    case ReserveOwn(_) => CallKeepsReserved(tokens, start, l, l', Forward(CatalogueRuns.Reserve(1)));
    case RequestWrite(_, e) => CallKeepsReserved(tokens, start, l, l', Submit(e));
    case Compensate(i) => CallKeepsReserved(tokens, start, l, l', Forward(CatalogueRuns.Remove(l.ids[i])));
    case WriterMove(step) => CallKeepsReserved(tokens, start, l, l', step);
    case _ =>
      WriterStays(tokens, l, m);
      FewerFree(tokens, start, l.writer, FreeIds(l), FreeIds(l'));
  }

  lemma {:induction false} RunStaysReserved(tokens: Tokenizer, start: State, l: Loop, moves: seq<Move>)
    requires IsLawful(tokens) && ImportLoop.IsRun(tokens, l, moves) && IsConsistent(l) && AreReservedIds(l.ids)
    requires IsReserved(tokens, start, l.writer, FreeIds(l)) && IsTrustedHistory(l.writer.history)
    ensures var l' := ImportLoop.After(tokens, l, moves);
            IsReserved(tokens, start, l'.writer, FreeIds(l')) && IsTrustedHistory(l'.writer.history)
    decreases |moves|
  {
    if moves != [] {
      MoveKeepsConsistency(tokens, l, moves[0]);
      MoveKeepsReserved(tokens, start, l, moves[0]);
      RunStaysReserved(tokens, start, Moved(tokens, l, moves[0]), moves[1..]);
    }
  }

  /**
    * Import and index. At every point of a parallel import under ids reserved for it, with
    * whatever failures, cancellations and compensations, live books have exactly their postings.
    */
  lemma ParallelImportKeepsIndexAgreement(tokens: Tokenizer, start: State, threads: nat, ids: seq<BookId>, w: Dispatcher, moves: seq<Move>)
    requires IsLawful(tokens) && CatalogueRuns.IsSound(start) && CatalogueRuns.Agrees(tokens, start.tables)
    requires threads > 0 && AreReservedIds(ids) && IsReserved(tokens, start, w, set i | 0 <= i < |ids| :: ids[i]) && IsTrustedHistory(w.history)
    requires ImportLoop.IsRun(tokens, Begun(threads, ids, w), moves)
    ensures CatalogueRuns.Agrees(tokens, ImportLoop.After(tokens, Begun(threads, ids, w), moves).writer.tables)
  {
    var begun := Begun(threads, ids, w);
    FewerFree(tokens, start, w, set i | 0 <= i < |ids| :: ids[i], FreeIds(begun));
    BegunIsConsistent(threads, ids, w);
    RunStaysReserved(tokens, start, begun, moves);
    var l := ImportLoop.After(tokens, begun, moves);
    ReservedAgrees(tokens, start, l.writer, FreeIds(l));
  }
}
