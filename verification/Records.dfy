/** What is known of supervised jobs once they are over: the trace of each, its effects, and the promise it keeps. */
module Records {
  import opened Wrappers
  import opened Collectors
  import opened Queue
  import opened Backend
  import opened Supervision
  import opened Protocol
  import opened Outbox

  /** A job that the server offers, with what the environment has in store for it: the answers to looking it up
      and to claiming it, whether its pipe and its process can be set up, and what its collection would yield. */
  datatype Offer = Offer(
    job: Job, lookup: Answer, answer: Answer, starts: bool, completions: seq<Probe>, reading: Result<string, string>)

  /** One supervised job: what its worker would send, what happened, and the agent's ledger before and after. */
  datatype Record = Record(
    offer: Offer, messages: seq<Message>, setup: Setup, before: Ledger, trace: Trace, after: Ledger)
  {
    /** The supervision ended in an exception. */
    ghost predicate Escaped() {
      After(setup, trace) == Done(true)
    }

    function Outcome(): Result<Finding, string> {
      JobResult(offer.job, offer.completions, offer.reading)
    }
  }

  function OffersOf(records: seq<Record>): seq<Offer> {
    seq(|records|, i requires 0 <= i < |records| => records[i].offer)
  }

  /** What a worker that collects for the offered job sends. */
  ghost predicate Collected(o: Offer, messages: seq<Message>) {
    && WorkerOutput(o.job, o.completions, messages)
    && messages[|messages| - 1] == LastMessage(o.job, o.completions, o.reading)
  }

  /** A finished supervision of the job with its own time limit, on a clock that never went back, that heard
      nothing but what a worker collecting for this job sends, in order; its trace accounts for everything that
      the agent did to its queue and to the server in the meantime. */
  ghost predicate Supervised(r: Record) {
    && Collected(r.offer, r.messages)
    && Finished(r.setup, r.trace) && Ordered(r.trace)
    && r.setup.job == r.offer.job.id && r.setup.timeout == r.offer.job.timeout
    && Messages(r.trace) <= r.messages
    && r.after == Account(r.before, r.trace)
  }

  // ---------------------------------------------------------------- cancellation and deadline

  /** The loop head read a state that calls the job off, or its deadline check read a clock that was at least
      the job's time limit past the first reading. */
  predicate CalledOff(r: Record, i: nat)
    requires i < |r.trace| && r.trace[0].Clock?
  {
    || r.trace[i] == Checked(Says(Cancelling)) || r.trace[i] == Checked(Says(Cancelled))
    || (i > 0 && r.trace[i - 1].Checked? && r.trace[i].Clock?
        && r.trace[i].now >= r.trace[0].now + r.offer.job.timeout)
  }

  /** The deadline of a supervised job is the first clock reading plus the job's time limit. */
  lemma DeadlineOfJob(r: Record)
    requires Supervised(r)
    ensures r.trace != [] && r.trace[0].Clock? && r.setup.deadline == r.trace[0].now + r.offer.job.timeout
  {
    DeadlineIsTimed(r.setup, r.trace);
  }

  /** A job that is called off has no effect from then on: what the agent did to its queue and to the server
      during the whole supervision is what it had done when the loop head saw it. */
  lemma NothingAfterCallOff(r: Record, i: nat)
    requires Supervised(r) && i < |r.trace| && r.trace[0].Clock? && CalledOff(r, i)
    ensures r.after == Account(r.before, r.trace[..i])
    ensures Completed !in Reports(r.trace)
    ensures Reports(r.trace) != [] && Reports(r.trace)[0] == if r.trace[i].Checked? then Cancelled else TimedOut
  {
    DeadlineOfJob(r);
    CalledOffHasNoEffect(r.setup, r.before, r.trace, i);
    CalledOffMeansNoResult(r.setup, r.trace, i);
  }

  /** A worker that dies in silence, a broken pipe, and an error message end the job as failed, and as nothing
      else: the worker is stopped, then the failure is reported. */
  lemma LostWorkerIsReported(r: Record, i: nat)
    requires Supervised(r) && i < |r.trace|
    requires r.trace[i] == Listened(Silence(false)) || r.trace[i] == Listened(PipeFault)
             || (r.trace[i].Listened? && r.trace[i].heard.Said? && r.trace[i].heard.message.Failure?)
    ensures i + 2 < |r.trace| && r.trace[i + 1] == Stopped
    ensures r.trace[i + 2].Posted? && r.trace[i + 2].status == Failed && Reports(r.trace) == [Failed]
  {
    LostWorkerMeansFailed(r.setup, r.trace, i);
  }

  // ---------------------------------------------------------------- the promise of delivery

  /** The server holds the result of the job under this id. */
  ghost predicate Holds(r: Record, store: map<Id, Observation>, id: Id) {
    && r.Outcome().Ok? && id in store
    && store[id].payload == Payload(r.offer.job.id, Complete(r.Outcome().value))
  }

  /** A job is reported as completed only when its collection succeeded and the server holds its result. */
  ghost predicate Honest(r: Record, store: map<Id, Observation>) {
    Completed in Reports(r.trace) ==> exists id :: Holds(r, store, id)
  }

  ghost predicate HonestIn(records: seq<Record>, store: map<Id, Observation>, r: Record) {
    r in records ==> Supervised(r) && Honest(r, store)
  }

  /** Every record is of a finished supervision and keeps the delivery promise. */
  ghost predicate AllHonest(records: seq<Record>, store: map<Id, Observation>) {
    forall r :: HonestIn(records, store, r)
  }

  lemma HonestRun(r: Record, store: map<Id, Observation>)
    requires Supervised(r)
    requires forall obs :: Sent(obs, true) in r.trace ==> obs.id in store && store[obs.id] == obs
    ensures Honest(r, store)
  {
    if Completed in Reports(r.trace) {
      ReportIsPosted(r.trace, Completed);
      var i :| 0 <= i < |r.trace| && r.trace[i].Posted? && r.trace[i].status == Completed;
      var obs, finding := FinalOf(r.setup, r.trace, i, r.offer.job, r.offer.completions, r.messages);
      assert Sent(obs, true) in r.trace;
      assert Holds(r, store, obs.id);
    }
  }

  lemma StaysHonest(records: seq<Record>, before: map<Id, Observation>, after: map<Id, Observation>)
    requires Grows(before, after) && AllHonest(records, before)
    ensures AllHonest(records, after)
  {
    forall r
      ensures HonestIn(records, after, r)
    {
      assert HonestIn(records, before, r);
      if r in records && Completed in Reports(r.trace) {
        var id :| Holds(r, before, id);
        assert KeptAt(before, after, id);
        assert Holds(r, after, id);
      }
    }
  }

  lemma HonestJoin(a: seq<Record>, b: seq<Record>, store: map<Id, Observation>)
    requires AllHonest(a, store) && AllHonest(b, store)
    ensures AllHonest(a + b, store)
  {
    var all := a + b;
    forall r
      ensures HonestIn(all, store, r)
    {
      assert HonestIn(a, store, r) && HonestIn(b, store, r);
    }
  }

  /** The scan is complete: every device of every batch that was sent, over every completion; and when the pool
      ran every host of the network, it counts them all and lists only hosts. */
  ghost predicate Whole(r: Record, scan: Scan) {
    Covers(scan, r.offer.completions, r.messages) && OfAllHosts(r.offer.job, r.offer.completions, scan)
  }

  /** A discovery job is reported as completed only when the server holds its complete scan. */
  lemma CompletedScanIsWhole(r: Record, store: map<Id, Observation>)
    requires Supervised(r) && Honest(r, store) && r.offer.job.kind == Discovery && Completed in Reports(r.trace)
    ensures exists id, scan :: id in store && Whole(r, scan)
                               && store[id].payload == Payload(r.offer.job.id, Complete(Scanned(scan)))
  {
    var id :| Holds(r, store, id);
    OutputIsCovered(r.offer.job, r.offer.completions, r.messages);
    var scan := r.messages[|r.messages| - 1].finding.scan;
    assert id in store && Whole(r, scan) && store[id].payload == Payload(r.offer.job.id, Complete(Scanned(scan)));
  }

  // ---------------------------------------------------------------- a round over the jobs

  /** The claim was answered with "started". A job that cannot be looked up is not claimed. */
  predicate Claimed(o: Offer) {
    o.lookup.Says? && o.answer == Says(Started)
  }

  /** The offer ends the round in an exception: a request raised, or the job is claimed and nobody can be set up
      to work on it. */
  predicate Stops(o: Offer) {
    !o.lookup.Says? || !o.answer.Says? || (Claimed(o) && !o.starts)
  }

  /** Of the first `n` offers, those whose claim was answered with "started", in order; without orphans only those
      whose worker could be set up. */
  function Taken(offers: seq<Offer>, n: nat, orphans: bool): seq<Offer>
    requires n <= |offers|
  {
    if n == 0 then []
    else
      var o := offers[n - 1];
      Taken(offers, n - 1, orphans) + if Claimed(o) && (orphans || o.starts) then [o] else []
  }

  ghost predicate Smooth(offers: seq<Offer>, n: nat, records: seq<Record>)
    requires n <= |offers|
  {
    (forall k :: 0 <= k < n ==> !Stops(offers[k])) && (forall k :: 0 <= k < |records| ==> !records[k].Escaped())
  }

  /** The round ended with its last offer, or with the last supervision, and everything before went well. */
  ghost predicate Broken(offers: seq<Offer>, n: nat, records: seq<Record>)
    requires n <= |offers|
  {
    && n > 0
    && if Stops(offers[n - 1]) then Smooth(offers, n - 1, records)
       else Claimed(offers[n - 1]) && records != [] && records[|records| - 1].Escaped()
            && Smooth(offers, n - 1, records[..|records| - 1])
  }

  /** After the first `n` offers: exactly the jobs whose claim was answered with "started" and whose worker could
      be set up have been supervised, in order; and the first exception, in a claim or out of a supervision, was
      the last thing that happened. */
  ghost predicate RoundState(offers: seq<Offer>, n: nat, records: seq<Record>, raised: bool) {
    && n <= |offers| && OffersOf(records) == Taken(offers, n, false)
    && if raised then Broken(offers, n, records) else Smooth(offers, n, records)
  }

  /** What comes of one offer: a supervision, or nothing but an exception. */
  ghost predicate OfferState(o: Offer, before: Ledger, taken: seq<Record>, raised: bool, after: Ledger) {
    if Claimed(o) && o.starts
    then |taken| == 1 && taken[0].offer == o && raised == taken[0].Escaped()
         && taken[0].before == before && taken[0].after == after
    else taken == [] && raised == Stops(o) && before == after
  }

  lemma RoundStep(offers: seq<Offer>, n: nat, records: seq<Record>, before: Ledger, taken: seq<Record>, raised: bool,
                  after: Ledger)
    requires n < |offers| && RoundState(offers, n, records, false)
    requires OfferState(offers[n], before, taken, raised, after)
    ensures RoundState(offers, n + 1, records + taken, raised)
  {
    assert OffersOf(records + taken) == OffersOf(records) + OffersOf(taken);
    if taken == [] {
      assert records + taken == records;
    } else {
      assert OffersOf(taken) == [offers[n]];
      assert (records + taken)[..|records + taken| - 1] == records;
    }
  }

  /** The jobs taken, in order, are those of the offers whose lookup succeeded and whose claim was answered with
      "started"; without orphans, also those whose worker could be set up. */
  lemma TakenExactly(offers: seq<Offer>, n: nat, orphans: bool)
    requires n < |offers|
    ensures Taken(offers, 0, orphans) == []
    ensures var o := offers[n];
            var started := o.lookup.Says? && o.answer.Says? && o.answer.status == Started && (orphans || o.starts);
            Taken(offers, n + 1, orphans) == Taken(offers, n, orphans) + if started then [o] else []
  {
  }

  lemma {:induction false} WithoutOrphans(offers: seq<Offer>, n: nat)
    requires n <= |offers| && forall k :: 0 <= k < n ==> !Stops(offers[k])
    ensures Taken(offers, n, true) == Taken(offers, n, false)
  {
    if n > 0 {
      WithoutOrphans(offers, n - 1);
    }
  }

  /** The jobs whose claim was answered with "started" are exactly the supervised ones, and at most one more: the
      last job of a round that ended because its worker could not be set up. */
  lemma StartedAreSupervised(offers: seq<Offer>, n: nat, records: seq<Record>, raised: bool)
    requires RoundState(offers, n, records, raised)
    ensures var orphan := n > 0 && Claimed(offers[n - 1]) && !offers[n - 1].starts;
            && Taken(offers, n, true) == OffersOf(records) + (if orphan then [offers[n - 1]] else [])
            && (orphan ==> raised)
  {
    if n > 0 {
      WithoutOrphans(offers, n - 1);
    }
  }

  /** The supervisions follow each other without any other effect on the queue or on the server's observations. */
  ghost predicate Linked(before: Ledger, records: seq<Record>, after: Ledger) {
    if records == [] then before == after
    else
      && records[0].before == before && records[|records| - 1].after == after
      && forall i, j :: 0 <= i < |records| && 0 <= j < |records| && j == i + 1 ==> records[i].after == records[j].before
  }

  /** A round goes on with the next offer. */
  lemma LinkedNext(start: Ledger, records: seq<Record>, o: Offer, before: Ledger, taken: seq<Record>, raised: bool,
                   after: Ledger)
    requires Linked(start, records, before) && OfferState(o, before, taken, raised, after)
    ensures Linked(start, records + taken, after)
  {
    if taken == [] {
      assert records + taken == records;
    }
  }

  // ---------------------------------------------------------------- cycles

  /** What the environment has in store for a cycle: whether the heartbeat goes through, if one is due, and what
      the server offers, if the request for jobs is answered. */
  datatype Turn = Turn(beats: bool, offers: Option<seq<Offer>>)

  /** How far a cycle got. */
  datatype Course =
    | Beatless
    | Unflushed(flush: FlushLog)
    | Unlisted(flush: FlushLog)
    | Polled(flush: FlushLog, n: nat, records: seq<Record>, raised: bool)

  /** A cycle, with the agent's ledger and its table of rows before and after. */
  datatype Cycle = Cycle(before: Ledger, rows: Table, course: Course, after: Ledger, left: Table)

  /** The ledger after a flush. */
  function Flushes(before: Ledger, f: FlushLog): Ledger
    requires |f.ends| <= |f.items|
  {
    Ledger(before.queued, before.flushes + 1, before.posts + Observations(f.items, |f.ends|))
  }

  /** One flush of the rows, and what it leaves. */
  ghost predicate FlushesTo(rows: Table, f: FlushLog, ok: bool, left: Table) {
    FlushRun(rows, f, ok) && FlushLeaves(rows, f, left)
  }

  /** A cycle flushes unless its heartbeat raises, asks for jobs unless the flush raises, and goes over the offers
      until one raises; it does nothing else to the queue or to the server's observations. */
  ghost predicate CycleState(t: Turn, c: Cycle) {
    match c.course
    case Beatless =>
      !t.beats && c.after == c.before && c.left == c.rows
    case Unflushed(f) =>
      t.beats && FlushesTo(c.rows, f, false, c.left) && c.after == Flushes(c.before, f)
    case Unlisted(f) =>
      t.beats && t.offers.None? && FlushesTo(c.rows, f, true, c.left) && c.after == Flushes(c.before, f)
    case Polled(f, n, records, raised) =>
      && t.beats && t.offers.Some? && FlushRun(c.rows, f, true)
      && RoundState(t.offers.value, n, records, raised)
      && (!raised ==> n == |t.offers.value|)
      && Linked(Flushes(c.before, f), records, c.after)
  }

  /** The cycles of a run: one for each turn, each starting where the one before left off. */
  ghost predicate Chained(work: seq<Turn>, before: Ledger, rows: Table, cycles: seq<Cycle>, after: Ledger,
                          left: Table)
  {
    && |work| == |cycles|
    && if cycles == [] then before == after && rows == left
       else
         var n := |cycles| - 1;
         && CycleState(work[n], cycles[n]) && cycles[n].after == after && cycles[n].left == left
         && Chained(work[..n], before, rows, cycles[..n], cycles[n].before, cycles[n].rows)
  }

  /** A run goes on with the next cycle. */
  lemma ChainedNext(work: seq<Turn>, n: nat, before: Ledger, rows: Table, cycles: seq<Cycle>, c: Cycle)
    requires n < |work| && Chained(work[..n], before, rows, cycles, c.before, c.rows) && CycleState(work[n], c)
    ensures Chained(work[..n + 1], before, rows, cycles + [c], c.after, c.left)
  {
    assert work[..n + 1][..n] == work[..n] && (cycles + [c])[..|cycles|] == cycles;
  }

  function RecordsIn(course: Course): seq<Record> {
    if course.Polled? then course.records else []
  }

  /** The supervisions of all cycles, in order. */
  function RecordsOf(cycles: seq<Cycle>): seq<Record> {
    if cycles == [] then [] else RecordsOf(cycles[..|cycles| - 1]) + RecordsIn(cycles[|cycles| - 1].course)
  }

  lemma RecordsNext(cycles: seq<Cycle>, c: Cycle)
    ensures RecordsOf(cycles + [c]) == RecordsOf(cycles) + RecordsIn(c.course)
  {
    assert (cycles + [c])[..|cycles|] == cycles;
  }

  lemma HonestMore(a: seq<Record>, b: seq<Record>, store: map<Id, Observation>, store': map<Id, Observation>)
    requires AllHonest(a, store) && Grows(store, store') && AllHonest(b, store')
    ensures AllHonest(a + b, store')
  {
    StaysHonest(a, store, store');
    HonestJoin(a, b, store');
  }

  lemma HonestNext(cycles: seq<Cycle>, c: Cycle, store: map<Id, Observation>, store': map<Id, Observation>)
    requires AllHonest(RecordsOf(cycles), store) && Grows(store, store') && AllHonest(RecordsIn(c.course), store')
    ensures AllHonest(RecordsOf(cycles + [c]), store')
  {
    RecordsNext(cycles, c);
    HonestMore(RecordsOf(cycles), RecordsIn(c.course), store, store');
  }

  /** A cycle asks for jobs exactly if the heartbeat goes through and every POST of its flush was answered readably
      or failed as a network failure. */
  lemma PollsExactly(t: Turn, c: Cycle)
    requires CycleState(t, c)
    ensures c.course.Polled? || c.course.Unlisted?
       <==> !c.course.Beatless? && forall k :: 0 <= k < |c.course.flush.ends| ==> !c.course.flush.ends[k].OtherFailure?
    ensures c.course.Beatless? <==> !t.beats
  {
    if !c.course.Beatless? {
      var f := c.course.flush;
      assert c.course.Unflushed? ==> f.ends[|f.ends| - 1].OtherFailure?;
    }
  }

  /** In every flush of the run the row is due, and a POST of it, if there is one, is answered unreadably. */
  ghost predicate Poisoned(cycles: seq<Cycle>, id: Id, due: real) {
    forall k :: 0 <= k < |cycles| && !cycles[k].course.Beatless? ==>
                  cycles[k].course.flush.at >= due && Unreadable(cycles[k].course.flush, id)
  }

  /** Every row that the flushes of the run sent is no newer than `created`. */
  ghost predicate SendsNothingNewer(cycles: seq<Cycle>, created: real) {
    forall k, i :: 0 <= k < |cycles| && !cycles[k].course.Beatless?
                   && 0 <= i < |cycles[k].course.flush.ends| && i < |cycles[k].course.flush.items| ==>
                     cycles[k].course.flush.items[i].row.created <= created
  }

  lemma PoisonedCycle(t: Turn, c: Cycle, id: Id)
    requires CycleState(t, c) && id in c.rows && |NoNewerThan(c.rows, id)| <= 50
    requires !c.course.Beatless? ==> c.course.flush.at >= c.rows[id].nextAttempt && Unreadable(c.course.flush, id)
    ensures RecordsIn(c.course) == [] && c.after.queued == c.before.queued
    ensures c.course.Beatless? || c.course.Unflushed?
    ensures SendsNothingNewer([c], c.rows[id].created)
    ensures id in c.left && c.left[id] == c.rows[id] && |NoNewerThan(c.left, id)| <= 50
  {
    if !c.course.Beatless? {
      UnreadableRowBlocks(c.rows, c.course.flush, !c.course.Unflushed?, id);
      UnreadableRowStays(c.rows, c.course.flush, false, c.left, id);
    }
  }

  lemma PoisonedPrefix(cycles: seq<Cycle>, n: nat, id: Id, due: real)
    requires n <= |cycles| && Poisoned(cycles, id, due)
    ensures Poisoned(cycles[..n], id, due)
  {
  }

  lemma SendsNothingNewerNext(cycles: seq<Cycle>, c: Cycle, created: real)
    requires SendsNothingNewer(cycles, created) && SendsNothingNewer([c], created)
    ensures SendsNothingNewer(cycles + [c], created)
  {
    forall k, i | 0 <= k < |cycles + [c]| && !(cycles + [c])[k].course.Beatless?
                  && 0 <= i < |(cycles + [c])[k].course.flush.ends| && i < |(cycles + [c])[k].course.flush.items|
      ensures (cycles + [c])[k].course.flush.items[i].row.created <= created
    {
      if k == |cycles| {
        assert [c][0] == (cycles + [c])[k];
      } else {
        assert cycles[k] == (cycles + [c])[k];
      }
    }
  }

  /** One such row stops the agent: while at most fifty rows are no newer, no cycle ever gets to ask for jobs, no
      newer row is ever sent, and the row stays as it is. */
  lemma {:induction false} PoisonedRowStopsTheAgent(work: seq<Turn>, before: Ledger, rows: Table, cycles: seq<Cycle>,
                                                    after: Ledger, left: Table, id: Id)
    requires Chained(work, before, rows, cycles, after, left)
    requires id in rows && |NoNewerThan(rows, id)| <= 50 && Poisoned(cycles, id, rows[id].nextAttempt)
    ensures RecordsOf(cycles) == [] && after.queued == before.queued
    ensures SendsNothingNewer(cycles, rows[id].created)
    ensures id in left && left[id] == rows[id] && |NoNewerThan(left, id)| <= 50
  {
    if cycles != [] {
      var n := |cycles| - 1;
      var c := cycles[n];
      PoisonedPrefix(cycles, n, id, rows[id].nextAttempt);
      PoisonedRowStopsTheAgent(work[..n], before, rows, cycles[..n], c.before, c.rows, id);
      PoisonedCycle(work[n], c, id);
      SendsNothingNewerNext(cycles[..n], c, rows[id].created);
      assert cycles == cycles[..n] + [c];
    }
  }
}
