/**
  * The concurrent writer: callers queue Add and ForceAdd requests, one writer thread drains the
  * queue into batches and answers each request. A step is what one thread does atomically.
  */
module WriterDispatch {
  import opened Catalogue
  import opened CatalogueRuns

  const MAX_BATCH_SIZE: nat := 50

  /** An accepted write. The ticket stands for the promise whose future the caller waits on. */
  datatype Request = Request(ticket: nat, entry: BatchEntry)

  /** Where the writer thread is, with the requests it has taken and not answered yet. */
  datatype Phase =
    | Waiting
    | Holding(batch: seq<Request>)
    | Answering(batch: seq<Request>, results: seq<BatchResult>)
    | FailingBatch(batch: seq<Request>)
    | FailingPending(batch: seq<Request>)
    | Exited

  /** What happened to the real repository, in the order of its operation mutex. */
  datatype Effect =
    | Write(entry: BatchEntry, faulted: bool)
    | Direct(op: Operation)

  datatype Dispatcher = Dispatcher(
    tables: Tables,
    queue: seq<Request>,
    stopped: bool,
    fatal: bool,
    phase: Phase,
    answers: map<nat, BatchResult>,
    log: seq<BatchEntry>,      // every accepted entry, by ticket
    history: seq<Effect>)

  datatype Step =
    | Submit(entry: BatchEntry)
    | Drain
    | Take
    | BatchReturns(faults: seq<bool>)
    | BatchThrows
    | AnswerNext
    | Poison
    | Forward(op: Operation)

  /** Reads and maintenance go straight to the repository; adding does not. */
  predicate IsForwarded(op: Operation) {
    !op.Add? && !op.AddBatch?
  }

  function Entries(rs: seq<Request>): (es: seq<BatchEntry>)
    ensures |es| == |rs|
  {
    seq(|rs|, i requires 0 <= i < |rs| => rs[i].entry)
  }

  function Writes(es: seq<BatchEntry>, faults: seq<bool>): (ws: seq<Effect>)
    requires |es| == |faults|
    ensures |ws| == |es|
  {
    seq(|es|, i requires 0 <= i < |es| => Write(es[i], faults[i]))
  }

  function AllFaulty(n: nat): seq<bool> {
    seq(n, i => true)
  }

  predicate IsEnabled(d: Dispatcher, step: Step) {
    match step
    case Submit(_) => true
    case Drain => true
    case Take => d.phase.Waiting?
    case BatchReturns(faults) => d.phase.Holding? && |faults| == |d.phase.batch|
    case BatchThrows => d.phase.Holding?
    case AnswerNext => (d.phase.Answering? || d.phase.FailingBatch? || d.phase.FailingPending?) && d.phase.batch != []
                       && (d.phase.Answering? ==> d.phase.results != [])
    case Poison => d.phase.FailingBatch? && d.phase.batch == []
    case Forward(op) => IsForwarded(op)
  }

  /** Submit: refused once the writer is poisoned or stopped, otherwise queued behind the others. */
  function SubmitStep(d: Dispatcher, e: BatchEntry): Dispatcher {
    if d.fatal || d.stopped then d
    else d.(queue := d.queue + [Request(|d.log|, e)], log := d.log + [e])
  }

  function Prefix(n: nat): nat {
    if n < MAX_BATCH_SIZE then n else MAX_BATCH_SIZE
  }

  /** The critical section of the writer loop: up to fifty requests, or exit, or sleep again. */
  function TakeStep(d: Dispatcher): Dispatcher {
    if d.queue != [] then
      var n := Prefix(|d.queue|);
      d.(phase := Holding(d.queue[..n]), queue := d.queue[n..])
    else if d.stopped then d.(phase := Exited)
    else d
  }

  function AnswerStep(d: Dispatcher): Dispatcher
    requires IsEnabled(d, AnswerNext)
  {
    var ticket, rest := d.phase.batch[0].ticket, d.phase.batch[1..];
    match d.phase
    case Answering(_, results) =>
      d.(answers := d.answers[ticket := results[0]],
         phase := if rest == [] then Waiting else Answering(rest, results[1..]))
    case FailingBatch(_) =>
      d.(answers := d.answers[ticket := Failed], phase := FailingBatch(rest))
    case _ =>
      d.(answers := d.answers[ticket := Failed], phase := if rest == [] then Exited else FailingPending(rest))
  }

  /** The fatal section: refuse new writes and take what is still queued, to fail it. */
  function PoisonStep(d: Dispatcher): Dispatcher {
    d.(fatal := true, stopped := true, queue := [],
       phase := if d.queue == [] then Exited else FailingPending(d.queue),
       history := d.history + Writes(Entries(d.queue), AllFaulty(|d.queue|)))
  }

  ghost function ForwardTables(tokens: Tokenizer, t: Tables, op: Operation): Tables
    requires IsForwarded(op)
  {
    CatalogueRuns.Step(tokens, State(t, {}), op).tables
  }

  ghost function Next(tokens: Tokenizer, d: Dispatcher, step: Step): Dispatcher
    requires IsEnabled(d, step)
  {
    match step
    case Submit(e) => SubmitStep(d, e)
    case Drain => d.(stopped := true)
    case Take => TakeStep(d)
    case BatchReturns(faults) =>
      var es := Entries(d.phase.batch);
      var (t, rs) := AddAll(tokens, d.tables, es, faults);
      d.(tables := t, phase := Answering(d.phase.batch, rs), history := d.history + Writes(es, faults))
    case BatchThrows =>
      var es := Entries(d.phase.batch);
      d.(phase := FailingBatch(d.phase.batch), history := d.history + Writes(es, AllFaulty(|es|)))
    case AnswerNext => AnswerStep(d)
    case Poison => PoisonStep(d)
    case Forward(op) => d.(tables := ForwardTables(tokens, d.tables, op), history := d.history + [Direct(op)])
  }

  function Started(t: Tables): Dispatcher {
    Dispatcher(t, [], false, false, Waiting, map[], [], [])
  }

  // ---------------------------------------------------------------------------------------
  // The sequential reading of a history: the same calls on the plain repository
  // ---------------------------------------------------------------------------------------

  /** Runs the effects one by one; the answers are those of the writes, in order. */
  ghost function Replay(tokens: Tokenizer, t: Tables, h: seq<Effect>): (Tables, seq<BatchResult>)
    requires forall e :: e in h && e.Direct? ==> IsForwarded(e.op)
  {
    if h == [] then (t, [])
    else
      var last := |h| - 1;
      var (t', rs) := Replay(tokens, t, h[..last]);
      match h[last]
      case Write(e, faulted) => var (t'', r) := AddOne(tokens, t', e, faulted); (t'', rs + [r])
      case Direct(op) => (ForwardTables(tokens, t', op), rs)
  }

  function WrittenEntries(h: seq<Effect>): seq<BatchEntry> {
    if h == [] then []
    else
      var last := |h| - 1;
      WrittenEntries(h[..last]) + if h[last].Write? then [h[last].entry] else []
  }

  ghost predicate IsHistory(h: seq<Effect>) {
    forall e :: e in h && e.Direct? ==> IsForwarded(e.op)
  }

  lemma ReplayWrite(tokens: Tokenizer, t: Tables, h: seq<Effect>, e: BatchEntry, faulted: bool)
    requires IsHistory(h)
    ensures IsHistory(h + [Write(e, faulted)])
    ensures var (t', rs) := Replay(tokens, t, h);
            var (t'', r) := AddOne(tokens, t', e, faulted);
            Replay(tokens, t, h + [Write(e, faulted)]) == (t'', rs + [r])
    ensures WrittenEntries(h + [Write(e, faulted)]) == WrittenEntries(h) + [e]
  {
    assert (h + [Write(e, faulted)])[..|h|] == h;
  }

  lemma WritesStep(h: seq<Effect>, es: seq<BatchEntry>, faults: seq<bool>)
    requires |es| == |faults| && es != []
    ensures var last := |es| - 1;
            h + Writes(es, faults) == (h + Writes(es[..last], faults[..last])) + [Write(es[last], faults[last])]
  {
  }

  lemma {:induction false} HistoryOfBatch(h: seq<Effect>, es: seq<BatchEntry>, faults: seq<bool>)
    requires IsHistory(h) && |es| == |faults|
    ensures IsHistory(h + Writes(es, faults))
    ensures WrittenEntries(h + Writes(es, faults)) == WrittenEntries(h) + es
    decreases |es|
  {
    if es == [] {
      assert h + Writes(es, faults) == h;
    } else {
      var last := |es| - 1;
      var before := h + Writes(es[..last], faults[..last]);
      HistoryOfBatch(h, es[..last], faults[..last]);
      WritesStep(h, es, faults);
      assert (before + [Write(es[last], faults[last])])[..|before|] == before;
      assert WrittenEntries(h) + es[..last] + [es[last]] == WrittenEntries(h) + es;
    }
  }

  /** Replaying a batch after a history adds the entries and their answers. */
  lemma {:induction false} ReplayBatch(tokens: Tokenizer, t: Tables, h: seq<Effect>, es: seq<BatchEntry>, faults: seq<bool>)
    requires IsHistory(h) && |es| == |faults|
    ensures IsHistory(h + Writes(es, faults))
    ensures var (t', rs) := Replay(tokens, t, h);
            var (t'', more) := AddAll(tokens, t', es, faults);
            Replay(tokens, t, h + Writes(es, faults)) == (t'', rs + more)
    decreases |es|
  {
    HistoryOfBatch(h, es, faults);
    var (t', rs) := Replay(tokens, t, h);
    if es == [] {
      assert h + Writes(es, faults) == h && rs + [] == rs;
    } else {
      var last := |es| - 1;
      var before := h + Writes(es[..last], faults[..last]);
      ReplayBatch(tokens, t, h, es[..last], faults[..last]);
      WritesStep(h, es, faults);
      ReplayWrite(tokens, t, before, es[last], faults[last]);
      var (t1, more) := AddAll(tokens, t', es[..last], faults[..last]);
      assert forall r :: rs + more + [r] == rs + (more + [r]);
    }
  }

  lemma {:induction false} AllFaultyChangesNothing(tokens: Tokenizer, t: Tables, es: seq<BatchEntry>)
    ensures AddAll(tokens, t, es, AllFaulty(|es|)) == (t, seq(|es|, i => Failed))
    decreases |es|
  {
    if es == [] {
      assert seq(|es|, i => Failed) == [];
    } else {
      var last := |es| - 1;
      assert AllFaulty(|es|)[..last] == AllFaulty(last) && AllFaulty(|es|)[last];
      AllFaultyChangesNothing(tokens, t, es[..last]);
      assert seq(last, i => Failed) + [Failed] == seq(|es|, i => Failed);
    }
  }

  // ---------------------------------------------------------------------------------------
  // The invariant
  // ---------------------------------------------------------------------------------------

  /** Requests the writer has taken and not answered. */
  function InHand(p: Phase): seq<Request> {
    match p
    case Waiting => []
    case Holding(b) => b
    case Answering(b, _) => b
    case FailingBatch(b) => b
    case FailingPending(b) => b
    case Exited => []
  }

  /** Everything accepted and unanswered, oldest first. */
  function Unanswered(d: Dispatcher): seq<Request> {
    InHand(d.phase) + d.queue
  }

  /** Accepted writes whose effect is part of the history. */
  function EffectiveCount(d: Dispatcher): int {
    |d.log| - |d.queue| - if d.phase.Holding? then |d.phase.batch| else 0
  }

  /**
    * Exactly once: the unanswered requests carry consecutive tickets up to the newest, and the
    * answered tickets are exactly the older ones.
    */
  ghost predicate IsPartition(log: seq<BatchEntry>, open: seq<Request>, answered: set<nat>) {
    var first := |log| - |open|;
    && 0 <= first
    && (forall i :: 0 <= i < |open| ==> open[i] == Request(first + i, log[first + i]))
    && (forall k :: k in answered <==> 0 <= k < first)
  }

  ghost predicate IsPartitioned(d: Dispatcher) {
    IsPartition(d.log, Unanswered(d), d.answers.Keys)
  }

  lemma PartitionAfterAnswer(log: seq<BatchEntry>, open: seq<Request>, answered: set<nat>)
    requires IsPartition(log, open, answered) && open != []
    ensures open[0].ticket == |log| - |open| && open[0].ticket !in answered
    ensures IsPartition(log, open[1..], answered + {open[0].ticket})
  {
  }

  ghost predicate IsPhaseConsistent(d: Dispatcher) {
    && (d.phase.Holding? ==> 0 < |d.phase.batch| <= MAX_BATCH_SIZE)
    && (d.phase.Answering? ==> 0 < |d.phase.batch| == |d.phase.results| <= MAX_BATCH_SIZE)
    && (d.phase.FailingPending? ==> d.phase.batch != [])
    && (d.fatal ==> d.stopped)
    && (d.phase.FailingPending? || d.phase.Exited? ==> d.stopped && d.queue == [])
  }

  /** The oldest ticket without an answer. */
  function FirstOpen(d: Dispatcher): int {
    |d.log| - |Unanswered(d)|
  }

  /**
    * Linearization: replaying the history gives the tables, the writes in it are the oldest
    * accepted entries in ticket order, and every answer given or held is the replayed one.
    */
  ghost predicate IsExplained(d: Dispatcher, replayed: (Tables, seq<BatchResult>)) {
    && IsHistory(d.history)
    && 0 <= EffectiveCount(d) <= |d.log|
    && WrittenEntries(d.history) == d.log[..EffectiveCount(d)]
    && replayed.0 == d.tables
    && AnswersMatch(d, replayed.1)
  }

  ghost predicate AnswersMatch(d: Dispatcher, rs: seq<BatchResult>) {
    && |rs| == EffectiveCount(d)
    && (forall k :: k in d.answers ==> k < |rs| && d.answers[k] == rs[k])
    && (d.phase.Answering? ==> 0 <= FirstOpen(d) <= |rs| && rs[FirstOpen(d)..] == d.phase.results)
    && (d.phase.FailingBatch? || d.phase.FailingPending? ==>
          forall k :: FirstOpen(d) <= k < |rs| && 0 <= k ==> rs[k] == Failed)
  }

  ghost predicate Inv(tokens: Tokenizer, start: Tables, d: Dispatcher) {
    && IsPartitioned(d)
    && IsPhaseConsistent(d)
    && IsHistory(d.history)
    && IsExplained(d, Replay(tokens, start, d.history))
  }

  lemma StartedInv(tokens: Tokenizer, t: Tables)
    ensures Inv(tokens, t, Started(t))
  {
  }

  lemma SubmitKeepsInv(tokens: Tokenizer, start: Tables, d: Dispatcher, e: BatchEntry)
    requires Inv(tokens, start, d)
    ensures Inv(tokens, start, SubmitStep(d, e))
  {
    if !d.fatal && !d.stopped {
      PartitionAfterSubmit(d.log, Unanswered(d), d.answers.Keys, e);
      SubmitAppends(d, e);
    }
  }

  lemma PartitionAfterSubmit(log: seq<BatchEntry>, open: seq<Request>, answered: set<nat>, e: BatchEntry)
    requires IsPartition(log, open, answered)
    ensures IsPartition(log + [e], open + [Request(|log|, e)], answered)
  {
  }

  /** An accepted write goes to the end of queue and log; nothing older changes. */
  lemma SubmitAppends(d: Dispatcher, e: BatchEntry)
    requires !d.fatal && !d.stopped && 0 <= EffectiveCount(d) <= |d.log|
    ensures var d' := SubmitStep(d, e);
            && Unanswered(d') == Unanswered(d) + [Request(|d.log|, e)] && d'.log == d.log + [e]
            && EffectiveCount(d') == EffectiveCount(d) && FirstOpen(d') == FirstOpen(d)
            && d'.log[..EffectiveCount(d)] == d.log[..EffectiveCount(d)]
            && (d'.answers, d'.history, d'.tables, d'.phase) == (d.answers, d.history, d.tables, d.phase)
  {
  }

  /** Taking a batch only moves requests from the queue into the hand of the writer. */
  lemma TakeMovesRequests(d: Dispatcher)
    requires d.phase.Waiting? && IsPhaseConsistent(d)
    ensures var d' := TakeStep(d);
            && Unanswered(d') == Unanswered(d) && EffectiveCount(d') == EffectiveCount(d) && FirstOpen(d') == FirstOpen(d)
            && (d'.log, d'.answers, d'.history, d'.tables) == (d.log, d.answers, d.history, d.tables)
            && (d'.phase.Waiting? || d'.phase.Holding? || d'.phase.Exited?)
            && IsPhaseConsistent(d')
  {
  }

  lemma TakeKeepsInv(tokens: Tokenizer, start: Tables, d: Dispatcher)
    requires Inv(tokens, start, d) && d.phase.Waiting?
    ensures Inv(tokens, start, TakeStep(d))
  {
    TakeMovesRequests(d);
  }

  lemma BatchReturnsKeepsInv(tokens: Tokenizer, start: Tables, d: Dispatcher, faults: seq<bool>)
    requires Inv(tokens, start, d) && IsEnabled(d, BatchReturns(faults))
    ensures Inv(tokens, start, Next(tokens, d, BatchReturns(faults)))
  {
    var es := Entries(d.phase.batch);
    var d' := Next(tokens, d, BatchReturns(faults));
    HistoryOfBatch(d.history, es, faults);
    ReplayBatch(tokens, start, d.history, es, faults);
    BatchIsNextOfLog(d);
    assert Unanswered(d') == Unanswered(d);
  }

  /** The batch in hand continues the log exactly where the history stops. */
  lemma BatchIsNextOfLog(d: Dispatcher)
    requires IsPartitioned(d) && d.phase.Holding?
    ensures EffectiveCount(d) == FirstOpen(d)
    ensures d.log[..EffectiveCount(d)] + Entries(d.phase.batch) == d.log[..EffectiveCount(d) + |d.phase.batch|]
  {
    var b := d.phase.batch;
    forall i | 0 <= i < |b| ensures Entries(b)[i] == d.log[FirstOpen(d) + i] {
      assert Unanswered(d)[i] == b[i];
    }
  }

  /** Failing a list of entries extends the history by writes that change nothing. */
  lemma FailedEntriesExplained(tokens: Tokenizer, start: Tables, h: seq<Effect>, es: seq<BatchEntry>)
    requires IsHistory(h)
    ensures var h' := h + Writes(es, AllFaulty(|es|));
            && IsHistory(h')
            && WrittenEntries(h') == WrittenEntries(h) + es
            && Replay(tokens, start, h').0 == Replay(tokens, start, h).0
            && Replay(tokens, start, h').1 == Replay(tokens, start, h).1 + seq(|es|, i => Failed)
  {
    HistoryOfBatch(h, es, AllFaulty(|es|));
    ReplayBatch(tokens, start, h, es, AllFaulty(|es|));
    AllFaultyChangesNothing(tokens, Replay(tokens, start, h).0, es);
  }

  lemma BatchThrowsKeepsInv(tokens: Tokenizer, start: Tables, d: Dispatcher)
    requires Inv(tokens, start, d) && d.phase.Holding?
    ensures Inv(tokens, start, Next(tokens, d, BatchThrows))
  {
    var es := Entries(d.phase.batch);
    var d' := Next(tokens, d, BatchThrows);
    FailedEntriesExplained(tokens, start, d.history, es);
    BatchIsNextOfLog(d);
    assert Unanswered(d') == Unanswered(d);
  }

  lemma PoisonKeepsPartition(d: Dispatcher)
    requires IsPartitioned(d) && IsPhaseConsistent(d) && IsEnabled(d, Poison)
    ensures IsPartitioned(PoisonStep(d)) && IsPhaseConsistent(PoisonStep(d))
    ensures FirstOpen(PoisonStep(d)) == FirstOpen(d) == EffectiveCount(d)
    ensures d.log[..EffectiveCount(d)] + Entries(d.queue) == d.log
  {
    var es := Entries(d.queue);
    assert Unanswered(d) == d.queue && Unanswered(PoisonStep(d)) == d.queue;
    forall i | 0 <= i < |es| ensures es[i] == d.log[FirstOpen(d) + i] {
      assert Unanswered(d)[i] == d.queue[i];
    }
  }

  lemma PoisonKeepsInv(tokens: Tokenizer, start: Tables, d: Dispatcher)
    requires Inv(tokens, start, d) && IsEnabled(d, Poison)
    ensures Inv(tokens, start, PoisonStep(d))
  {
    var es := Entries(d.queue);
    var d' := PoisonStep(d);
    var rs := Replay(tokens, start, d.history).1;
    PoisonKeepsPartition(d);
    FailedEntriesExplained(tokens, start, d.history, es);
    assert EffectiveCount(d') == |d.log| && d.log[..|d.log|] == d.log;
    assert AnswersMatch(d', rs + seq(|es|, i => Failed));
  }

  lemma AnswerKeepsPartition(d: Dispatcher)
    requires IsPartitioned(d) && IsPhaseConsistent(d) && IsEnabled(d, AnswerNext)
    ensures IsPartitioned(AnswerStep(d)) && IsPhaseConsistent(AnswerStep(d))
    ensures d.phase.batch[0].ticket == FirstOpen(d) && d.phase.batch[0].ticket !in d.answers
    ensures FirstOpen(AnswerStep(d)) == FirstOpen(d) + 1
  {
    var d' := AnswerStep(d);
    assert Unanswered(d)[0] == d.phase.batch[0];
    assert Unanswered(d') == Unanswered(d)[1..];
    assert d'.answers.Keys == d.answers.Keys + {d.phase.batch[0].ticket};
    PartitionAfterAnswer(d.log, Unanswered(d), d.answers.Keys);
  }

  lemma AnswerKeepsMatch(d: Dispatcher, rs: seq<BatchResult>)
    requires IsPartitioned(d) && IsPhaseConsistent(d) && IsEnabled(d, AnswerNext) && AnswersMatch(d, rs)
    ensures AnswersMatch(AnswerStep(d), rs)
  {
    AnswerKeepsPartition(d);
    var first := FirstOpen(d);
    assert EffectiveCount(AnswerStep(d)) == EffectiveCount(d);
    if d.phase.Answering? {
      assert rs[first..][0] == rs[first] == d.phase.results[0];
      assert rs[first..][1..] == rs[first + 1..];
    }
  }

  lemma AnswerKeepsInv(tokens: Tokenizer, start: Tables, d: Dispatcher)
    requires Inv(tokens, start, d) && IsEnabled(d, AnswerNext)
    ensures Inv(tokens, start, AnswerStep(d))
  {
    AnswerKeepsPartition(d);
    AnswerKeepsMatch(d, Replay(tokens, start, d.history).1);
    assert EffectiveCount(AnswerStep(d)) == EffectiveCount(d);
  }

  lemma ReplayDirect(tokens: Tokenizer, t: Tables, h: seq<Effect>, op: Operation)
    requires IsHistory(h) && IsForwarded(op)
    ensures IsHistory(h + [Direct(op)]) && WrittenEntries(h + [Direct(op)]) == WrittenEntries(h)
    ensures Replay(tokens, t, h + [Direct(op)]) == (ForwardTables(tokens, Replay(tokens, t, h).0, op), Replay(tokens, t, h).1)
  {
    assert (h + [Direct(op)])[..|h|] == h;
  }

  lemma ForwardKeepsInv(tokens: Tokenizer, start: Tables, d: Dispatcher, op: Operation)
    requires Inv(tokens, start, d) && IsForwarded(op)
    ensures Inv(tokens, start, Next(tokens, d, Forward(op)))
  {
    var d' := d.(tables := ForwardTables(tokens, d.tables, op), history := d.history + [Direct(op)]);
    assert d' == Next(tokens, d, Forward(op));
    ReplayDirect(tokens, start, d.history, op);
    assert Unanswered(d') == Unanswered(d) && EffectiveCount(d') == EffectiveCount(d);
    assert AnswersMatch(d', Replay(tokens, start, d.history).1);
  }

  lemma StepKeepsInv(tokens: Tokenizer, start: Tables, d: Dispatcher, step: Step)
    requires Inv(tokens, start, d) && IsEnabled(d, step)
    ensures Inv(tokens, start, Next(tokens, d, step))
  {
    match step
    case Submit(e) => SubmitKeepsInv(tokens, start, d, e);
    case Drain => assert Unanswered(Next(tokens, d, Drain)) == Unanswered(d);
    case Take => TakeKeepsInv(tokens, start, d);
    case BatchReturns(faults) => BatchReturnsKeepsInv(tokens, start, d, faults);
    case BatchThrows => BatchThrowsKeepsInv(tokens, start, d);
    case AnswerNext => AnswerKeepsInv(tokens, start, d);
    case Poison => PoisonKeepsInv(tokens, start, d);
    case Forward(op) => ForwardKeepsInv(tokens, start, d, op);
  }

  // ---------------------------------------------------------------------------------------
  // Whole runs
  // ---------------------------------------------------------------------------------------

  ghost predicate IsRun(tokens: Tokenizer, d: Dispatcher, steps: seq<Step>)
    decreases |steps|
  {
    steps == [] || (IsEnabled(d, steps[0]) && IsRun(tokens, Next(tokens, d, steps[0]), steps[1..]))
  }

  ghost function After(tokens: Tokenizer, d: Dispatcher, steps: seq<Step>): Dispatcher
    requires IsRun(tokens, d, steps)
    decreases |steps|
  {
    if steps == [] then d else After(tokens, Next(tokens, d, steps[0]), steps[1..])
  }

  lemma {:induction false} RunKeepsInv(tokens: Tokenizer, start: Tables, d: Dispatcher, steps: seq<Step>)
    requires Inv(tokens, start, d) && IsRun(tokens, d, steps)
    ensures Inv(tokens, start, After(tokens, d, steps))
    decreases |steps|
  {
    if steps != [] {
      StepKeepsInv(tokens, start, d, steps[0]);
      RunKeepsInv(tokens, start, Next(tokens, d, steps[0]), steps[1..]);
    }
  }

  /**
    * Linearizability. Whatever the interleaving of callers, the writer and direct calls, the
    * catalogue is what the recorded calls produce one by one on the plain repository, the
    * writes among them are the accepted entries in the order of their acceptance, and every
    * answer a caller has received is the one its entry gets in that sequential run.
    */
  lemma WritesAreLinearizable(tokens: Tokenizer, start: Tables, steps: seq<Step>)
    requires IsRun(tokens, Started(start), steps)
    ensures var d := After(tokens, Started(start), steps);
            && IsHistory(d.history)
            && var (t, rs) := Replay(tokens, start, d.history);
               && d.tables == t
               && WrittenEntries(d.history) <= d.log
               && |WrittenEntries(d.history)| == |rs|
               && forall k :: k in d.answers ==> k < |rs| && d.answers[k] == rs[k]
  {
    StartedInv(tokens, start);
    RunKeepsInv(tokens, start, Started(start), steps);
  }

  /** A write under an id of its own is answered with that id, if it is answered with an import. */
  lemma {:induction false} ReplayAnswersWithOwnIds(tokens: Tokenizer, t: Tables, h: seq<Effect>, k: nat)
    requires IsHistory(h) && k < |WrittenEntries(h)| && WrittenEntries(h)[k].book.id > 0
    ensures var rs := Replay(tokens, t, h).1;
            |rs| == |WrittenEntries(h)| && (rs[k].Imported? ==> rs[k].bookId == WrittenEntries(h)[k].book.id)
    decreases |h|
  {
    var init := h[..|h| - 1];
    ReplayCounts(tokens, t, init);
    if k < |WrittenEntries(init)| {
      ReplayAnswersWithOwnIds(tokens, t, init, k);
    }
  }

  lemma {:induction false} ReplayCounts(tokens: Tokenizer, t: Tables, h: seq<Effect>)
    requires IsHistory(h)
    ensures |Replay(tokens, t, h).1| == |WrittenEntries(h)|
  {
    if h != [] {
      ReplayCounts(tokens, t, h[..|h| - 1]);
    }
  }

  lemma AnswersBearOwnIds(tokens: Tokenizer, start: Tables, d: Dispatcher, k: nat)
    requires Inv(tokens, start, d) && k in d.answers && d.answers[k].Imported? && k < |d.log| && d.log[k].book.id > 0
    ensures d.answers[k].bookId == d.log[k].book.id
  {
    ReplayAnswersWithOwnIds(tokens, start, d.history, k);
  }

  function Faults(h: seq<Effect>): (faults: seq<bool>)
    ensures |faults| == |h|
  {
    seq(|h|, i requires 0 <= i < |h| => h[i].Write? && h[i].faulted)
  }

  lemma {:induction false} AllWritten(h: seq<Effect>)
    requires forall e :: e in h ==> e.Write?
    ensures |WrittenEntries(h)| == |h| && forall i :: 0 <= i < |h| ==> WrittenEntries(h)[i] == h[i].entry
  {
    if h != [] {
      assert h[|h| - 1] in h;
      AllWritten(h[..|h| - 1]);
    }
  }

  /** Without direct calls that sequential run is the default batch of the interface. */
  lemma {:induction false} ReplayOfWrites(tokens: Tokenizer, t: Tables, h: seq<Effect>)
    requires forall e :: e in h ==> e.Write?
    ensures |WrittenEntries(h)| == |h|
    ensures Replay(tokens, t, h) == AddAll(tokens, t, WrittenEntries(h), Faults(h))
  {
    AllWritten(h);
    if h != [] {
      var init, last := h[..|h| - 1], h[|h| - 1];
      assert last in h;
      ReplayOfWrites(tokens, t, init);
      AllWritten(init);
      assert WrittenEntries(h)[..|init|] == WrittenEntries(init) && Faults(h)[..|init|] == Faults(init);
      assert Faults(h)[|init|] == last.faulted && WrittenEntries(h)[|init|] == last.entry;
    }
  }

  /** Once the writer thread has exited, drained or poisoned, every accepted write is answered. */
  lemma ExitLeavesNothingUnanswered(tokens: Tokenizer, start: Tables, steps: seq<Step>)
    requires IsRun(tokens, Started(start), steps)
    ensures var d := After(tokens, Started(start), steps);
            d.phase.Exited? ==> WrittenEntries(d.history) == d.log && forall k :: k in d.answers <==> 0 <= k < |d.log|
  {
    StartedInv(tokens, start);
    RunKeepsInv(tokens, start, Started(start), steps);
  }

  /** Batches are taken in queue order, are never empty and never exceed the limit. */
  lemma BatchesAreFifo(tokens: Tokenizer, start: Tables, steps: seq<Step>)
    requires IsRun(tokens, Started(start), steps)
    ensures var d := After(tokens, Started(start), steps);
            d.phase.Holding? ==>
              && 0 < |d.phase.batch| <= MAX_BATCH_SIZE
              && |d.phase.batch| + |d.queue| <= |d.log|
              && forall i :: 0 <= i < |d.phase.batch| + |d.queue| ==>
                   (d.phase.batch + d.queue)[i] == Request(FirstOpen(d) + i, d.log[FirstOpen(d) + i])
  {
    StartedInv(tokens, start);
    RunKeepsInv(tokens, start, Started(start), steps);
  }

  /**
    * No promise is set twice and no effect is taken back: a step leaves the answers, the log
    * and the history it finds in place, and answers at most the oldest open ticket.
    */
  lemma StepExtends(tokens: Tokenizer, start: Tables, d: Dispatcher, step: Step)
    requires Inv(tokens, start, d) && IsEnabled(d, step)
    ensures var d' := Next(tokens, d, step);
            && d.log <= d'.log && d.history <= d'.history
            && (forall k :: k in d.answers ==> k in d'.answers && d'.answers[k] == d.answers[k])
            && (forall k :: k in d'.answers && k !in d.answers ==> step.AnswerNext? && k == FirstOpen(d))
  {
    if step.AnswerNext? {
      AnswerKeepsPartition(d);
    }
  }

  // ---------------------------------------------------------------------------------------
  // Progress of the writer
  // ---------------------------------------------------------------------------------------

  predicate IsWriterStep(step: Step) {
    step.Take? || step.BatchReturns? || step.BatchThrows? || step.AnswerNext? || step.Poison?
  }

  /** A wake-up that finds nothing to do. */
  predicate IsIdle(d: Dispatcher, step: Step) {
    step.Take? && d.phase.Waiting? && d.queue == [] && !d.stopped
  }

  function PhaseRank(p: Phase): nat {
    match p
    case Waiting => 4
    case Holding(_) => 3
    case Answering(_, _) => 2
    case FailingBatch(_) => 2
    case FailingPending(_) => 1
    case Exited => 0
  }

  function Work(d: Dispatcher): nat {
    4 * |Unanswered(d)| + PhaseRank(d.phase)
  }

  /** Every writer step that is not an idle wake-up leaves less to do; nobody else adds work after a stop. */
  lemma WorkFalls(tokens: Tokenizer, d: Dispatcher, step: Step)
    requires IsPhaseConsistent(d) && IsEnabled(d, step)
    ensures IsWriterStep(step) && !IsIdle(d, step) ==> Work(Next(tokens, d, step)) < Work(d)
    ensures IsIdle(d, step) ==> Next(tokens, d, step) == d
    ensures !IsWriterStep(step) && (d.stopped || !step.Submit?) ==> Work(Next(tokens, d, step)) == Work(d)
  {
    if step.Take? && d.queue != [] {
      var n := Prefix(|d.queue|);
      assert |d.queue[..n]| + |d.queue[n..]| == |d.queue|;
    }
  }

  /** The writer is never stuck: unless it has exited or sleeps on an empty queue, it can go on. */
  lemma WriterCanGoOn(d: Dispatcher) returns (step: Step)
    requires IsPhaseConsistent(d) && !d.phase.Exited?
    ensures IsEnabled(d, step) && IsWriterStep(step)
    ensures d.stopped || d.queue != [] || !d.phase.Waiting? ==> !IsIdle(d, step)
  {
    match d.phase
    case Waiting => step := Take;
    case Holding(batch) => step := BatchReturns(AllFaulty(|batch|));
    case Answering(_, _) => step := AnswerNext;
    case FailingBatch(batch) => step := if batch == [] then Poison else AnswerNext;
    case FailingPending(_) => step := AnswerNext;
  }
}
