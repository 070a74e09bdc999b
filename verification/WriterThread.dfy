/**
  * The dispatching repository as an object. Each method is one critical section or one stretch
  * of the writer loop between two of them, and does exactly one step of WriterDispatch.
  */
module WriterThread {
  import opened BookDatabase
  import opened Catalogue
  import opened CatalogueRuns
  import opened WriterDispatch
  import opened Wrappers

  class WriterDispatchingRepository {
    const repository: Database

    var queue: seq<Request>
    var stopped: bool
    var fatal: bool

    /** The locals of the writer loop: where it is and the requests it has moved out of the queue. */
    var phase: Phase

    /** The promises that have been set, by ticket. */
    var answers: map<nat, BatchResult>

    var nextTicket: nat
    ghost var log: seq<BatchEntry>
    ghost var history: seq<Effect>

    constructor (repository: Database)
      requires repository.saved == []
      ensures this.repository == repository && Valid()
      ensures View() == Started(repository.tables)
    {
      this.repository := repository;
      queue, stopped, fatal := [], false, false;
      phase, answers, nextTicket := Waiting, map[], 0;
      log, history := [], [];
    }

    ghost predicate Valid()
      reads this, repository
    {
      nextTicket == |log| && IsPhaseConsistent(View()) && repository.saved == []
    }

    ghost function View(): Dispatcher
      reads this, repository
    {
      Dispatcher(repository.tables, queue, stopped, fatal, phase, answers, log, history)
    }

    /** Accepts a write and hands back its ticket, or refuses it. */
    method Submit(e: BatchEntry) returns (ticket: Option<nat>)
      requires Valid()
      modifies this
      ensures Valid()
      ensures View() == Next(repository.tokens, old(View()), WriterDispatch.Submit(e))
      ensures ticket == if old(fatal) || old(stopped) then None else Some(old(nextTicket))
    {
      if fatal || stopped {
        return None;
      }
      ticket := Some(nextTicket);
      queue := queue + [Request(nextTicket, e)];
      nextTicket := nextTicket + 1;
      log := log + [e];
    }

    method RequestStop()
      requires Valid()
      modifies this`stopped
      ensures Valid() && View() == Next(repository.tokens, old(View()), WriterDispatch.Drain)
    {
      if !stopped {
        stopped := true;
      }
    }

    /** Up to fifty requests from the front of the queue. */
    method PopBatch() returns (batch: seq<Request>)
      modifies this`queue
      ensures batch == old(queue)[..Prefix(|old(queue)|)] && queue == old(queue)[Prefix(|old(queue)|)..]
    {
      batch := [];
      while queue != [] && |batch| < MAX_BATCH_SIZE
        invariant batch + queue == old(queue) && |batch| <= MAX_BATCH_SIZE
        decreases |queue|
      {
        batch := batch + [queue[0]];
        queue := queue[1..];
      }
      assert batch == old(queue)[..|batch|] && queue == old(queue)[|batch|..];
    }

    /** The critical section at the top of the writer loop. */
    method TakeBatch()
      requires Valid() && phase.Waiting?
      modifies this`queue, this`phase
      ensures Valid() && View() == Next(repository.tokens, old(View()), Take)
    {
      var batch := PopBatch();
      if batch == [] {
        if stopped {
          phase := Exited;
        }
        return;
      }
      phase := Holding(batch);
    }

    /** AddBatch on the real repository, whose results or exception decide how the loop goes on. */
    method RunBatch() returns (ghost step: Step, ghost marks: seq<nat>)
      requires Valid() && phase.Holding?
      modifies this`phase, this`history, repository`clock, repository`tables, repository`saved
      ensures step.BatchReturns? || step.BatchThrows?
      ensures IsEnabled(old(View()), step)
      ensures Valid() && View() == Next(repository.tokens, old(View()), step)
      ensures step.BatchThrows? ==> repository.FailsBetween(old(repository.clock), repository.clock)
      ensures step.BatchReturns? ==> repository.FaultsAreOwn(step.faults, marks, old(repository.clock), repository.clock)
    {
      var batch := phase.batch;
      var results;
      ghost var faults;
      results, faults, marks := repository.AddBatch(Entries(batch));
      if results.None? {
        phase := FailingBatch(batch);
        history := history + Writes(Entries(batch), AllFaulty(|batch|));
        return BatchThrows, marks;
      }
      phase := Answering(batch, results.value);
      history := history + Writes(Entries(batch), faults);
      return BatchReturns(faults), marks;
    }

    /** Sets the promise of the oldest request in hand. */
    method AnswerOldest()
      requires Valid() && IsEnabled(View(), AnswerNext)
      modifies this`phase, this`answers
      ensures Valid() && View() == Next(repository.tokens, old(View()), AnswerNext)
    {
      var batch := phase.batch;
      match phase {
        case Answering(_, results) =>
          answers := answers[batch[0].ticket := results[0]];
          phase := if batch[1..] == [] then Waiting else Answering(batch[1..], results[1..]);
        case FailingBatch(_) =>
          answers := answers[batch[0].ticket := Failed];
          phase := FailingBatch(batch[1..]);
        case FailingPending(_) =>
          answers := answers[batch[0].ticket := Failed];
          phase := if batch[1..] == [] then Exited else FailingPending(batch[1..]);
      }
    }

    /** The critical section of the fatal path: refuse later writes and claim the queued ones. */
    method EnterFatalState()
      requires Valid() && IsEnabled(View(), Poison)
      modifies this`fatal, this`stopped, this`queue, this`phase, this`history
      ensures Valid() && View() == Next(repository.tokens, old(View()), Poison)
    {
      fatal := true;
      stopped := true;
      var pending := queue;
      queue := [];
      history := history + Writes(Entries(pending), AllFaulty(|pending|));
      phase := if pending == [] then Exited else FailingPending(pending);
    }

    /** One step of the writer thread. */
    method WriterStep()
      requires Valid() && !phase.Exited?
      requires stopped || queue != [] || !phase.Waiting?
      modifies this, repository`clock, repository`tables, repository`saved
      ensures Valid() && Work(View()) < Work(old(View()))
      ensures old(stopped) ==> stopped
      ensures exists step :: IsWriterStep(step) && IsEnabled(old(View()), step)
                             && View() == Next(repository.tokens, old(View()), step)
    {
      match phase {
        case Waiting =>
          WorkFalls(repository.tokens, View(), Take);
          TakeBatch();
        case Holding(_) =>
          ghost var before := View();
          ghost var step, marks := RunBatch();
          WorkFalls(repository.tokens, before, step);
        case FailingBatch(batch) =>
          WorkFalls(repository.tokens, View(), if batch == [] then Poison else AnswerNext);
          if batch == [] {
            EnterFatalState();
          } else {
            AnswerOldest();
          }
        case Answering(_, _) =>
          WorkFalls(repository.tokens, View(), AnswerNext);
          AnswerOldest();
        case FailingPending(_) =>
          WorkFalls(repository.tokens, View(), AnswerNext);
          AnswerOldest();
      }
    }

    /** Drain: after the stop is requested the writer runs to its exit and answers everything. */
    method Drain(ghost start: Tables)
      requires Valid() && Inv(repository.tokens, start, View())
      modifies this, repository`clock, repository`tables, repository`saved
      ensures Valid() && Inv(repository.tokens, start, View())
      ensures phase.Exited? && stopped && log == old(log)
      ensures forall k :: k in answers <==> 0 <= k < |log|
      ensures forall k :: k in old(answers) ==> k in answers && answers[k] == old(answers)[k]
    {
      StepKeepsInv(repository.tokens, start, View(), WriterDispatch.Drain);
      RequestStop();
      while !phase.Exited?
        invariant Valid() && Inv(repository.tokens, start, View())
        invariant stopped && log == old(log)
        invariant forall k :: k in old(answers) ==> k in answers && answers[k] == old(answers)[k]
        decreases Work(View())
      {
        ghost var before := View();
        WriterStep();
        ghost var step :| IsWriterStep(step) && IsEnabled(before, step) && View() == Next(repository.tokens, before, step);
        StepKeepsInv(repository.tokens, start, before, step);
        StepExtends(repository.tokens, start, before, step);
      }
    }
  }
}
