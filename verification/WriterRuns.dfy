/**
  * Runs of the writer protocol as runs of repository operations: if every reserved id is submitted
  * at most once, any interleaving keeps the full-text index in agreement with the tables.
  */
module WriterRuns {
  import opened Catalogue
  import CatalogueRuns
  import opened WriterDispatch

  type State = CatalogueRuns.State

  // ---------------------------------------------------------------------------------------
  // The operations of a history
  // ---------------------------------------------------------------------------------------

  function OperationOf(e: Effect): CatalogueRuns.Operation {
    match e
    case Write(entry, faulted) => CatalogueRuns.Add(entry, faulted)
    case Direct(op) => op
  }

  function Operations(h: seq<Effect>): seq<CatalogueRuns.Operation> {
    seq(|h|, i requires 0 <= i < |h| => OperationOf(h[i]))
  }

  lemma {:induction false} RunOfAppended(tokens: Tokenizer, s: State, ops: seq<CatalogueRuns.Operation>, op: CatalogueRuns.Operation)
    requires CatalogueRuns.IsLegalRun(tokens, s, ops) && CatalogueRuns.IsLegal(CatalogueRuns.Run(tokens, s, ops), op)
    ensures CatalogueRuns.IsLegalRun(tokens, s, ops + [op])
    ensures CatalogueRuns.Run(tokens, s, ops + [op]) == CatalogueRuns.Step(tokens, CatalogueRuns.Run(tokens, s, ops), op)
    decreases |ops|
  {
    var all := ops + [op];
    if ops == [] {
      assert all[1..] == [];
    } else {
      assert all[1..] == ops[1..] + [op];
      RunOfAppended(tokens, CatalogueRuns.Step(tokens, s, ops[0]), ops[1..], op);
    }
  }

  lemma {:induction false} TrustOfAppended(ops: seq<CatalogueRuns.Operation>, op: CatalogueRuns.Operation, atStart: bool)
    ensures CatalogueRuns.IsTrusted(ops + [op], atStart) ==
            (op.Compact? || (CatalogueRuns.IsTrusted(ops, atStart) && !op.InterruptedCompact?))
    decreases |ops|
  {
    var all := ops + [op];
    if ops == [] {
      assert all[1..] == [];
    } else {
      assert all[1..] == ops[1..] + [op];
      TrustOfAppended(ops[1..], op, ops[0].Compact? || (atStart && !ops[0].InterruptedCompact?));
    }
  }

  /** Where the recorded operations lead, if they are a legal run from `start`. */
  ghost predicate LeadsTo(tokens: Tokenizer, start: State, h: seq<Effect>, s: State) {
    CatalogueRuns.IsLegalRun(tokens, start, Operations(h)) && CatalogueRuns.Run(tokens, start, Operations(h)) == s
  }

  lemma OneMoreEffect(tokens: Tokenizer, start: State, h: seq<Effect>, s: State, e: Effect)
    requires LeadsTo(tokens, start, h, s) && CatalogueRuns.IsLegal(s, OperationOf(e))
    ensures LeadsTo(tokens, start, h + [e], CatalogueRuns.Step(tokens, s, OperationOf(e)))
  {
    assert Operations(h + [e]) == Operations(h) + [OperationOf(e)];
    RunOfAppended(tokens, start, Operations(h), OperationOf(e));
  }

  // ---------------------------------------------------------------------------------------
  // Entries that are still to be written, each under an id of its own
  // ---------------------------------------------------------------------------------------

  /** Accepted entries whose effect is not part of the history. */
  function Outstanding(d: Dispatcher): seq<CatalogueRuns.BatchEntry> {
    (if d.phase.Holding? then Entries(d.phase.batch) else []) + Entries(d.queue)
  }

  /** Entries under different reserved ids, none of which is still free to be submitted. */
  ghost predicate AreOwn(es: seq<CatalogueRuns.BatchEntry>, handedOut: set<BookId>, free: set<BookId>) {
    && free <= handedOut
    && (forall i :: 0 <= i < |es| ==> es[i].book.id in handedOut && es[i].book.id !in free)
    && (forall i, j :: 0 <= i < j < |es| ==> es[i].book.id != es[j].book.id)
  }

  /** The history is a legal run that leads to the tables, and what is outstanding can extend it. */
  ghost predicate IsReserved(tokens: Tokenizer, start: State, d: Dispatcher, free: set<BookId>) {
    exists s: State :: LeadsTo(tokens, start, d.history, s) && s.tables == d.tables && CatalogueRuns.IsSound(s)
                       && AreOwn(Outstanding(d), s.handedOut, free)
  }

  ghost function StateOf(tokens: Tokenizer, start: State, d: Dispatcher, free: set<BookId>): (s: State)
    requires IsReserved(tokens, start, d, free)
    ensures LeadsTo(tokens, start, d.history, s) && s.tables == d.tables && CatalogueRuns.IsSound(s)
    ensures AreOwn(Outstanding(d), s.handedOut, free)
  {
    CatalogueRuns.Run(tokens, start, Operations(d.history))
  }

  lemma FewerFree(tokens: Tokenizer, start: State, d: Dispatcher, free: set<BookId>, fewer: set<BookId>)
    requires IsReserved(tokens, start, d, free) && fewer <= free
    ensures IsReserved(tokens, start, d, fewer)
  {
    var s := StateOf(tokens, start, d, free);
    assert AreOwn(Outstanding(d), s.handedOut, fewer);
  }

  lemma StartedIsReserved(tokens: Tokenizer, start: State)
    requires CatalogueRuns.IsSound(start)
    ensures IsReserved(tokens, start, Started(start.tables), start.handedOut)
  {
    assert Operations([]) == [];
    assert LeadsTo(tokens, start, [], start);
    assert Outstanding(Started(start.tables)) == [];
  }

  lemma SubmitKeepsReserved(tokens: Tokenizer, start: State, d: Dispatcher, free: set<BookId>, e: CatalogueRuns.BatchEntry)
    requires IsReserved(tokens, start, d, free) && e.book.id in free
    ensures IsReserved(tokens, start, SubmitStep(d, e), free - {e.book.id})
  {
    var s := StateOf(tokens, start, d, free);
    var d' := SubmitStep(d, e);
    assert d' == d || Outstanding(d') == Outstanding(d) + [e];
    assert AreOwn(Outstanding(d'), s.handedOut, free - {e.book.id});
  }

  /** A step that changes neither history nor tables nor what is outstanding. */
  lemma NothingWritten(tokens: Tokenizer, start: State, d: Dispatcher, d': Dispatcher, free: set<BookId>)
    requires IsReserved(tokens, start, d, free)
    requires d'.history == d.history && d'.tables == d.tables && Outstanding(d') == Outstanding(d)
    ensures IsReserved(tokens, start, d', free)
  {
    var s := StateOf(tokens, start, d, free);
    assert AreOwn(Outstanding(d'), s.handedOut, free);
  }

  // ---------------------------------------------------------------------------------------
  // Batches
  // ---------------------------------------------------------------------------------------

  /** One write of an own id: the other reserved ids stay reserved. */
  lemma OneMoreWrite(tokens: Tokenizer, start: State, h: seq<Effect>, s: State, e: CatalogueRuns.BatchEntry, faulted: bool) returns (s': State)
    requires IsLawful(tokens) && LeadsTo(tokens, start, h, s) && CatalogueRuns.IsSound(s) && e.book.id in s.handedOut
    ensures LeadsTo(tokens, start, h + [Write(e, faulted)], s') && CatalogueRuns.IsSound(s')
    ensures s'.tables == CatalogueRuns.AddOne(tokens, s.tables, e, faulted).0
    ensures s.handedOut - {e.book.id} <= s'.handedOut
  {
    var op := CatalogueRuns.Add(e, faulted);
    s' := CatalogueRuns.Step(tokens, s, op);
    OneMoreEffect(tokens, start, h, s, Write(e, faulted));
    CatalogueRuns.StepIsSound(tokens, s, op);
    var r := CatalogueRuns.AddOne(tokens, s.tables, e, faulted).1;
    assert forall id :: id in CatalogueRuns.ImportedIds([r]) ==> id == e.book.id;
  }

  /** The first entries of what is outstanding are written, in order; the rest stays as it is. */
  lemma {:induction false} BatchIsLegal(tokens: Tokenizer, start: State, h: seq<Effect>, s: State, es: seq<CatalogueRuns.BatchEntry>,
                                        faults: seq<bool>, rest: seq<CatalogueRuns.BatchEntry>, free: set<BookId>) returns (s': State)
    requires IsLawful(tokens) && LeadsTo(tokens, start, h, s) && CatalogueRuns.IsSound(s)
    requires |es| == |faults| && AreOwn(es + rest, s.handedOut, free)
    ensures LeadsTo(tokens, start, h + Writes(es, faults), s') && CatalogueRuns.IsSound(s')
    ensures s'.tables == CatalogueRuns.AddAll(tokens, s.tables, es, faults).0
    ensures AreOwn(rest, s'.handedOut, free)
    decreases |es|
  {
    if es == [] {
      assert h + Writes(es, faults) == h && es + rest == rest;
      s' := s;
    } else {
      var last := |es| - 1;
      var before := es[..last];
      assert es + rest == before + ([es[last]] + rest);
      var mid := BatchIsLegal(tokens, start, h, s, before, faults[..last], [es[last]] + rest, free);
      OwnHead(es[last], rest, mid.handedOut, free);
      s' := OneMoreWrite(tokens, start, h + Writes(before, faults[..last]), mid, es[last], faults[last]);
      WritesStep(h, es, faults);
      OwnRest(rest, mid.handedOut, s'.handedOut, es[last].book.id, free);
    }
  }

  lemma OwnHead(e: CatalogueRuns.BatchEntry, rest: seq<CatalogueRuns.BatchEntry>, handedOut: set<BookId>, free: set<BookId>)
    requires AreOwn([e] + rest, handedOut, free)
    ensures e.book.id in handedOut && AreOwn(rest, handedOut, free) && e.book.id !in free
    ensures forall i :: 0 <= i < |rest| ==> rest[i].book.id != e.book.id
  {
    var all := [e] + rest;
    assert all[0] == e && forall i :: 0 <= i < |rest| ==> all[i + 1] == rest[i];
    forall i, j | 0 <= i < j < |rest| ensures rest[i].book.id != rest[j].book.id {
      assert all[i + 1].book.id != all[j + 1].book.id;
    }
  }

  lemma OwnRest(rest: seq<CatalogueRuns.BatchEntry>, handedOut: set<BookId>, left: set<BookId>, used: BookId, free: set<BookId>)
    requires AreOwn(rest, handedOut, free) && handedOut - {used} <= left && used !in free
    requires forall i :: 0 <= i < |rest| ==> rest[i].book.id != used
    ensures AreOwn(rest, left, free)
  {
    forall i | 0 <= i < |rest| ensures rest[i].book.id in left {
      assert rest[i].book.id in handedOut - {used};
    }
    assert forall id :: id in free ==> id in handedOut - {used};
  }

  lemma BatchReturnsKeepsReserved(tokens: Tokenizer, start: State, d: Dispatcher, free: set<BookId>, faults: seq<bool>)
    requires IsLawful(tokens) && IsReserved(tokens, start, d, free) && IsEnabled(d, BatchReturns(faults))
    ensures IsReserved(tokens, start, Next(tokens, d, BatchReturns(faults)), free)
  {
    var s := StateOf(tokens, start, d, free);
    var d' := Next(tokens, d, BatchReturns(faults));
    var s' := BatchIsLegal(tokens, start, d.history, s, Entries(d.phase.batch), faults, Entries(d.queue), free);
    assert Outstanding(d') == Entries(d.queue);
  }

  lemma BatchThrowsKeepsReserved(tokens: Tokenizer, start: State, d: Dispatcher, free: set<BookId>)
    requires IsLawful(tokens) && IsReserved(tokens, start, d, free) && d.phase.Holding?
    ensures IsReserved(tokens, start, Next(tokens, d, BatchThrows), free)
  {
    var s := StateOf(tokens, start, d, free);
    var d' := Next(tokens, d, BatchThrows);
    var es := Entries(d.phase.batch);
    var s' := BatchIsLegal(tokens, start, d.history, s, es, AllFaulty(|es|), Entries(d.queue), free);
    AllFaultyChangesNothing(tokens, s.tables, es);
    assert Outstanding(d') == Entries(d.queue);
  }

  lemma PoisonKeepsReserved(tokens: Tokenizer, start: State, d: Dispatcher, free: set<BookId>)
    requires IsLawful(tokens) && IsReserved(tokens, start, d, free) && IsEnabled(d, Poison)
    ensures IsReserved(tokens, start, PoisonStep(d), free)
  {
    var s := StateOf(tokens, start, d, free);
    var es := Entries(d.queue);
    assert Outstanding(d) == es + [] && Outstanding(PoisonStep(d)) == [];
    var s' := BatchIsLegal(tokens, start, d.history, s, es, AllFaulty(|es|), [], free);
    AllFaultyChangesNothing(tokens, s.tables, es);
  }

  // ---------------------------------------------------------------------------------------
  // Direct calls, and all steps together
  // ---------------------------------------------------------------------------------------

  /** The ids that may still be submitted after a step: a submission uses one up, a reservation adds some. */
  function FreeAfter(d: Dispatcher, step: Step, free: set<BookId>): set<BookId> {
    match step
    case Submit(e) => free - {e.book.id}
    case Forward(op) => if op.Reserve? then free + CatalogueRuns.FreshIds(d.tables, op.count) else free
    case _ => free
  }

  lemma ForwardKeepsReserved(tokens: Tokenizer, start: State, d: Dispatcher, free: set<BookId>, op: CatalogueRuns.Operation)
    requires IsLawful(tokens) && IsReserved(tokens, start, d, free) && IsForwarded(op)
    ensures IsReserved(tokens, start, Next(tokens, d, Forward(op)), FreeAfter(d, Forward(op), free))
  {
    var s := StateOf(tokens, start, d, free);
    var d' := Next(tokens, d, Forward(op));
    var s' := CatalogueRuns.Step(tokens, s, op);
    OneMoreEffect(tokens, start, d.history, s, Direct(op));
    CatalogueRuns.StepIsSound(tokens, s, op);
    assert Outstanding(d') == Outstanding(d);
    assert s'.tables == d'.tables;
    assert AreOwn(Outstanding(d'), s'.handedOut, FreeAfter(d, Forward(op), free));
  }

  lemma TakeKeepsReserved(tokens: Tokenizer, start: State, d: Dispatcher, free: set<BookId>)
    requires IsReserved(tokens, start, d, free) && d.phase.Waiting?
    ensures IsReserved(tokens, start, TakeStep(d), free)
  {
    if d.queue != [] {
      var n := Prefix(|d.queue|);
      assert Entries(d.queue) == Entries(d.queue[..n]) + Entries(d.queue[n..]);
    }
    NothingWritten(tokens, start, d, TakeStep(d), free);
  }

  lemma StepKeepsReserved(tokens: Tokenizer, start: State, d: Dispatcher, free: set<BookId>, step: Step)
    requires IsLawful(tokens) && IsReserved(tokens, start, d, free) && IsEnabled(d, step)
    requires step.Submit? ==> step.entry.book.id in free
    ensures IsReserved(tokens, start, Next(tokens, d, step), FreeAfter(d, step, free))
  {
    match step
    case Submit(e) => SubmitKeepsReserved(tokens, start, d, free, e);
    case Drain => NothingWritten(tokens, start, d, Next(tokens, d, Drain), free);
    case Take => TakeKeepsReserved(tokens, start, d, free);
    case BatchReturns(faults) => BatchReturnsKeepsReserved(tokens, start, d, free, faults);
    case BatchThrows => BatchThrowsKeepsReserved(tokens, start, d, free);
    case AnswerNext => NothingWritten(tokens, start, d, AnswerStep(d), free);
    case Poison => PoisonKeepsReserved(tokens, start, d, free);
    case Forward(op) => ForwardKeepsReserved(tokens, start, d, free, op);
  }

  // ---------------------------------------------------------------------------------------
  // Whether the index can be relied on after a history
  // ---------------------------------------------------------------------------------------

  /** No interrupted rebuild is still unrepaired after these effects. */
  predicate IsTrustedHistory(h: seq<Effect>) {
    CatalogueRuns.IsTrusted(Operations(h), true)
  }

  lemma TrustAfterEffect(h: seq<Effect>, e: Effect)
    ensures IsTrustedHistory(h + [e]) ==
            (OperationOf(e).Compact? || (IsTrustedHistory(h) && !OperationOf(e).InterruptedCompact?))
  {
    assert Operations(h + [e]) == Operations(h) + [OperationOf(e)];
    TrustOfAppended(Operations(h), OperationOf(e), true);
  }

  lemma {:induction false} TrustAfterWrites(h: seq<Effect>, es: seq<CatalogueRuns.BatchEntry>, faults: seq<bool>)
    requires |es| == |faults|
    ensures IsTrustedHistory(h + Writes(es, faults)) == IsTrustedHistory(h)
    decreases |es|
  {
    if es == [] {
      assert h + Writes(es, faults) == h;
    } else {
      var last := |es| - 1;
      TrustAfterWrites(h, es[..last], faults[..last]);
      WritesStep(h, es, faults);
      TrustAfterEffect(h + Writes(es[..last], faults[..last]), Write(es[last], faults[last]));
    }
  }

  lemma StepKeepsTrust(tokens: Tokenizer, d: Dispatcher, step: Step)
    requires IsEnabled(d, step) && IsTrustedHistory(d.history) && !(step.Forward? && step.op.InterruptedCompact?)
    ensures IsTrustedHistory(Next(tokens, d, step).history)
  {
    match step
    case BatchReturns(faults) => TrustAfterWrites(d.history, Entries(d.phase.batch), faults);
    case BatchThrows => TrustAfterWrites(d.history, Entries(d.phase.batch), AllFaulty(|d.phase.batch|));
    case Poison => TrustAfterWrites(d.history, Entries(d.queue), AllFaulty(|d.queue|));
    case Forward(op) => TrustAfterEffect(d.history, Direct(op));
    case _ =>
  }

  // ---------------------------------------------------------------------------------------
  // Whole runs
  // ---------------------------------------------------------------------------------------

  /** Callers submit entries under ids that were reserved, each id at most once. */
  ghost predicate UsesReservedIds(tokens: Tokenizer, d: Dispatcher, steps: seq<Step>, free: set<BookId>)
    requires IsRun(tokens, d, steps)
    decreases |steps|
  {
    steps == []
    || ((steps[0].Submit? ==> steps[0].entry.book.id in free)
        && UsesReservedIds(tokens, Next(tokens, d, steps[0]), steps[1..], FreeAfter(d, steps[0], free)))
  }

  lemma {:induction false} RunStaysReserved(tokens: Tokenizer, start: State, d: Dispatcher, steps: seq<Step>, free: set<BookId>)
    returns (left: set<BookId>)
    requires IsLawful(tokens) && IsReserved(tokens, start, d, free) && IsRun(tokens, d, steps) && UsesReservedIds(tokens, d, steps, free)
    ensures IsReserved(tokens, start, After(tokens, d, steps), left)
    decreases |steps|
  {
    if steps == [] {
      left := free;
    } else {
      StepKeepsReserved(tokens, start, d, free, steps[0]);
      left := RunStaysReserved(tokens, start, Next(tokens, d, steps[0]), steps[1..], FreeAfter(d, steps[0], free));
    }
  }

  /** What a reserved history says about the index. */
  lemma ReservedAgrees(tokens: Tokenizer, start: State, d: Dispatcher, free: set<BookId>)
    requires IsLawful(tokens) && CatalogueRuns.IsSound(start) && CatalogueRuns.Agrees(tokens, start.tables)
    requires IsReserved(tokens, start, d, free)
    ensures IsTrustedHistory(d.history) ==> CatalogueRuns.Agrees(tokens, d.tables)
  {
    var s := StateOf(tokens, start, d, free);
    CatalogueRuns.RunKeepsIndexAgreement(tokens, start, Operations(d.history), true);
  }

  /**
    * Agreement under concurrency. Whatever the interleaving of callers, the writer thread and
    * direct calls, batches and failures, the history is a legal run of repository operations that
    * leads to the tables, and the index agrees with them unless an interrupted rebuild is unrepaired.
    */
  lemma InterleavingsKeepIndexAgreement(tokens: Tokenizer, start: State, steps: seq<Step>)
    requires IsLawful(tokens) && CatalogueRuns.IsSound(start) && CatalogueRuns.Agrees(tokens, start.tables)
    requires IsRun(tokens, Started(start.tables), steps)
    requires UsesReservedIds(tokens, Started(start.tables), steps, start.handedOut)
    ensures var d := After(tokens, Started(start.tables), steps);
            && CatalogueRuns.IsLegalRun(tokens, start, Operations(d.history))
            && CatalogueRuns.Run(tokens, start, Operations(d.history)).tables == d.tables
            && (IsTrustedHistory(d.history) ==> CatalogueRuns.Agrees(tokens, d.tables))
  {
    StartedIsReserved(tokens, start);
    var left := RunStaysReserved(tokens, start, Started(start.tables), steps, start.handedOut);
    ReservedAgrees(tokens, start, After(tokens, Started(start.tables), steps), left);
  }
}
