/** The agent's delivery loop over its queue, the server and the worker processes. The environment chooses
    every server answer, every clock reading and when messages arrive. */
module Agent {
  import opened Wrappers
  import opened Collectors
  import opened Queue
  import opened Backend
  import opened Supervision
  import opened JobRuns
  import opened Outbox
  import opened Records

  class AgentClient {
    const queue: DurableQueue
    const server: Server
    const heartbeatSeconds: real
    var lastJob: Option<JobId>

    // The wall clock so far: its latest reading, and whether it never went back.
    ghost var horizon: real
    ghost var steady: bool
    // Every id issued so far and what it stands for: a new random id is one that is not here.
    var contents: map<Id, Content>
    // The ids whose POST was answered, and the number of flushes begun.
    ghost var confirmed: set<Id>
    ghost var flushes: nat
    // How often the POSTs of each queued id have failed as network failures, before the store was opened included.
    ghost var failures: map<Id, nat>

    /** An agent starts on an opened queue, knowing what the ids in the queue and on the server stand for. */
    constructor (queue: DurableQueue, server: Server, heartbeatSeconds: real, contents: map<Id, Content>,
                 ghost horizon: real)
      requires queue.Valid() && queue.Exclusive() && queue.maxItems >= 1 && server.Valid()
      requires Known(queue.inserted, server.store, contents) && RowsMean(queue.rows, contents)
      requires Meant(server.posts, contents) && FatesMean(queue.departed, contents)
      requires forall id :: id in queue.departed ==> !queue.departed[id].Acknowledged?
      ensures Valid() && this.queue == queue && this.server == server && this.contents == contents
      ensures confirmed == {} && lastJob == None
      ensures steady <==> Paced(queue.rows, horizon)
    {
      this.queue, this.server, this.heartbeatSeconds := queue, server, heartbeatSeconds;
      this.contents, this.horizon := contents, horizon;
      lastJob := None;
      steady := Paced(queue.rows, horizon);
      confirmed, flushes := {}, 0;
      failures := map id | id in queue.rows :: queue.rows[id].attempts;
      new;
      assert forall id :: TalliedAt(queue.rows, failures, id);
    }

    ghost predicate Valid()
      reads this`contents, this`confirmed, this`horizon, this`steady, this`failures, queue, server
    {
      && queue.Valid() && queue.Exclusive() && queue.maxItems >= 1 && server.Valid()
      && Known(queue.inserted, server.store, contents)
      && RowsMean(queue.rows, contents) && FatesMean(queue.departed, contents)
      && Meant(server.posts, contents)
      && Backed(queue.departed, confirmed, server.store)
      && (steady ==> Paced(queue.rows, horizon)) && Tallied(queue.rows, failures)
    }

    /** What the agent has done to its queue and to the server. */
    ghost function Books(): Ledger
      reads this`flushes, queue`inserted, server`posts
    {
      Ledger(queue.inserted, flushes, server.posts)
    }

    /** What may never be forgotten. */
    ghost function History(): Past
      reads queue`inserted, queue`departed, server`store
    {
      Past(queue.inserted, queue.departed, server.store)
    }

    /** A reading of the wall clock; the clock is steady as long as none is earlier than the latest so far. */
    method Wall() returns (now: real)
      modifies this`horizon, this`steady
      ensures old(Valid()) ==> Valid()
      ensures steady <==> old(steady) && old(horizon) <= now
      ensures horizon == if old(horizon) < now then now else old(horizon)
    {
      now := *;
      if old(Valid()) && steady && horizon <= now {
        PacedLonger(queue.rows, horizon, now);
      }
      steady := steady && horizon <= now;
      if horizon < now {
        horizon := now;
      }
    }

    // -------------------------------------------------------------- the queue

    /** The insertion itself, with the clock readings it was made with. */
    method Put(id: Id, source: string, payload: Payload, now: real, pruneNow: real, stamp: real)
      requires Valid() && id !in contents && (steady ==> now <= horizon)
      modifies this`contents, this`failures, queue
      ensures Valid() && contents == old(contents)[id := Content(source, payload)]
      ensures failures == old(failures)[id := 0]
      ensures queue.inserted == old(queue.inserted) + {id} && Grows(old(queue.departed), queue.departed)
      ensures id in queue.rows && queue.rows[id] == Row(source, stamp, payload, 0, 0.0, now)
      ensures Enlarged(old(queue.rows), queue.rows, pruneNow, queue.retention, id,
                       Row(source, stamp, payload, 0, 0.0, now), queue.maxItems)
    {
      ghost var before, departed, inserted := queue.rows, queue.departed, queue.inserted;
      var _ := queue.AddFresh(source, payload, id, now, pruneNow, stamp);
      NewMeaning(inserted, server.store, server.posts, contents, id, Content(source, payload));
      StaysBacked(before, departed, queue.departed, confirmed, server.store, contents, id, Content(source, payload));
      FreshRow(before, queue.rows, id, contents);
      StillTallied(before, queue.rows, failures, id);
      failures := failures[id := 0];
      if steady {
        FreshRowIsPaced(before, queue.rows, id, horizon);
      }
      contents := contents[id := Content(source, payload)];
    }

    /** Queues a payload under an id never used before, at the time of the reading `now`. Only rows past their
        retention leave, and the oldest ones as far as the capacity requires. */
    method Enqueue(source: string, payload: Payload) returns (id: Id, ghost row: Row, ghost at: real)
      requires Valid()
      modifies this`horizon, this`steady, this`contents, this`failures, queue
      ensures Valid() && failures == old(failures)[id := 0]
      ensures id !in old(contents) && contents == old(contents)[id := Content(source, payload)]
      ensures queue.inserted == old(queue.inserted) + {id} && Grows(old(queue.departed), queue.departed)
      ensures id in queue.rows && queue.rows[id] == row && id !in server.store
      ensures row == Row(source, row.observedAt, payload, 0, 0.0, row.created)
      ensures Enlarged(old(queue.rows), queue.rows, at, queue.retention, id, row, queue.maxItems)
      ensures steady ==> old(steady) && old(horizon) <= row.created <= at <= row.observedAt
      ensures steady ==> row.observedAt == horizon
    {
      var now := Wall();
      var pruneNow := Wall();
      var stamp := Wall();
      FreshId(contents.Keys);
      id :| id !in contents;
      row, at := Row(source, stamp, payload, 0, 0.0, now), pruneNow;
      assert KnownAt(server.store, contents, id);
      Put(id, source, payload, now, pruneNow, stamp);
    }

    /** A POST of what its id stands for. */
    method PostKnown(obs: Observation) returns (d: Delivery)
      requires Valid() && obs.id in contents && contents[obs.id] == ContentOf(obs)
      modifies server
      ensures Valid() && Grows(old(server.store), server.store) && (d.Answered? ==> obs.id in server.store)
      ensures server.store == old(server.store)
              || (obs.id !in old(server.store) && server.store == old(server.store)[obs.id := obs])
      ensures server.posts == old(server.posts) + [obs]
    {
      d := server.Post(obs);
      StillKnown(queue.inserted, old(server.store), server.store, contents, obs);
      StillMeant(old(server.posts), contents, obs);
      StillBacked(queue.departed, confirmed, old(server.store), server.store);
    }

    /** A row whose POST was answered leaves the queue. */
    method Discharge(item: Item)
      requires Valid() && item.id in queue.rows && queue.rows[item.id] == item.row && item.id in server.store
      modifies this`confirmed, queue`rows, queue`departed
      ensures Valid() && Grows(old(queue.departed), queue.departed) && confirmed == old(confirmed) + {item.id}
      ensures queue.rows == Without(old(queue.rows), {item.id})
      ensures queue.departed == old(queue.departed)[item.id := Acknowledged(item.row)]
    {
      assert RowMeans(queue.rows, contents, item.id);
      ConfirmedIsBacked(queue.departed, confirmed, server.store, contents, item.id, item.row);
      FewerRowsMean(queue.rows, item.id, contents, horizon);
      FewerTallied(queue.rows, failures, item.id);
      confirmed := confirmed + {item.id};
      queue.Ack(item.id);
    }

    /** A row whose POST failed as a network failure is scheduled for its next try. */
    method Postpone(item: Item) returns (now: real)
      requires Valid() && item.id in queue.rows && queue.rows[item.id] == item.row
      requires steady ==> horizon >= item.row.created + Backoff(item.row.attempts) as real
      modifies this`horizon, this`steady, this`failures, queue`rows
      ensures item.id in old(failures) && failures == old(failures)[item.id := old(failures)[item.id] + 1]
      ensures Valid() && old(horizon) <= horizon && (steady ==> old(steady) && now == horizon)
      ensures queue.rows == old(queue.rows)[item.id := Rescheduled(item.row, item.row.attempts, now)]
    {
      now := Wall();
      RescheduledRowMeans(queue.rows, item.id, item.row.attempts, now, contents);
      OneMoreTallied(queue.rows, failures, item.id, now);
      failures := failures[item.id := failures[item.id] + 1];
      queue.Retry(item.id, item.row.attempts, now);
      if steady {
        RetryKeepsPace(old(queue.rows), queue.rows, item, old(horizon), now);
      }
    }

    /** One step of `flush`: POST a due row, then remove it or schedule its next try. */
    method SendOne(item: Item) returns (d: Delivery, ghost at: real)
      requires Valid() && item.id in queue.rows && queue.rows[item.id] == item.row
      requires steady ==> horizon >= item.row.created + Backoff(item.row.attempts) as real
      modifies this`horizon, this`steady, this`confirmed, this`failures, queue, server
      ensures Valid() && Onward(old(History()), History())
      ensures server.posts == old(server.posts) + [ObservationOf(item)]
      ensures queue.inserted == old(queue.inserted) && old(horizon) <= horizon && (steady ==> old(steady))
      ensures Sends(old(queue.rows), queue.rows, old(confirmed), confirmed, server.store, item, d, at)
      ensures d.NetworkFailure? && steady ==> at == horizon
      ensures item.id in old(failures)
              && failures == if d.NetworkFailure? then old(failures)[item.id := old(failures)[item.id] + 1]
                             else old(failures)
      ensures queue.departed
           == if d.Answered? then old(queue.departed)[item.id := Acknowledged(item.row)] else old(queue.departed)
    {
      assert RowMeans(queue.rows, contents, item.id) && TalliedAt(queue.rows, failures, item.id);
      at := 0.0;
      d := PostKnown(ObservationOf(item));
      match d {
        case Answered =>
          Discharge(item);
        case NetworkFailure =>
          at := Postpone(item);
        case OtherFailure =>
      }
    }

    /** The next POST of a flush that began with `rows`, `departed` and `posts`. */
    method SendNext(due: seq<Item>, n: nat, ghost rows: Table, ghost departed: map<Id, Fate>,
                    ghost posts: seq<Observation>, ghost tally: map<Id, nat>, ghost ends: seq<Delivery>,
                    ghost ats: seq<real>)
      returns (d: Delivery, ghost at: real)
      requires Valid() && n == |ends| < |due| && QueuedOnce(rows, due)
      requires FlushState(rows, queue.rows, confirmed, server.store, due, ends, ats)
      requires server.posts == posts + Observations(due, n) && OnlyAcknowledged(departed, queue.departed)
      requires Counted(tally, failures, due, ends)
      requires steady ==> horizon >= due[n].row.created + Backoff(due[n].row.attempts) as real
      modifies this`horizon, this`steady, this`confirmed, this`failures, queue, server
      ensures Valid() && Onward(old(History()), History()) && queue.inserted == old(queue.inserted)
      ensures FlushState(rows, queue.rows, confirmed, server.store, due, ends + [d], ats + [at])
      ensures server.posts == posts + Observations(due, n + 1) && OnlyAcknowledged(departed, queue.departed)
      ensures Counted(tally, failures, due, ends + [d])
      ensures old(horizon) <= horizon && (steady ==> old(steady))
    {
      ghost var before, fates, confirmed', store := queue.rows, queue.departed, confirmed, server.store;
      ghost var counts := failures;
      NextIsQueued(rows, before, due, n);
      d, at := SendOne(due[n]);
      FlushStep(rows, before, queue.rows, confirmed', confirmed, store, server.store, due, ends, ats, d, at);
      StillOnlyAcknowledged(departed, fates, due[n].id, due[n].row);
      ObservationsNext(posts, due, n);
      CountedNext(tally, counts, failures, due, ends, d);
    }

    /** The loop of a flush. */
    method SendAll(due: seq<Item>, ghost now: real)
      returns (ok: bool, ends: seq<Delivery>, ghost ats: seq<real>)
      requires Valid() && QueuedOnce(queue.rows, due)
      requires steady ==> horizon >= now && WaitedOut(due, now)
      modifies this`horizon, this`steady, this`confirmed, this`failures, queue, server
      ensures Valid() && Onward(old(History()), History()) && queue.inserted == old(queue.inserted)
      ensures steady ==> old(steady)
      ensures FlushState(old(queue.rows), queue.rows, confirmed, server.store, due, ends, ats)
      ensures server.posts == old(server.posts) + Observations(due, |ends|)
      ensures Ended(ok, ends) && (ok ==> |ends| == |due|)
      ensures OnlyAcknowledged(old(queue.departed), queue.departed) && Counted(old(failures), failures, due, ends)
    {
      ends, ats, ok := [], [], true;
      CountedNone(failures, due);
      while ok && |ends| < |due|
        invariant Valid() && Onward(old(History()), History()) && queue.inserted == old(queue.inserted)
        invariant FlushState(old(queue.rows), queue.rows, confirmed, server.store, due, ends, ats) && Ended(ok, ends)
        invariant server.posts == old(server.posts) + Observations(due, |ends|)
        invariant steady ==> old(steady) && horizon >= now
        invariant OnlyAcknowledged(old(queue.departed), queue.departed)
        invariant Counted(old(failures), failures, due, ends)
        decreases |due| - |ends|
      {
        ghost var past := History();
        var d, at := SendNext(due, |ends|, old(queue.rows), old(queue.departed), old(server.posts), old(failures),
                              ends, ats);
        OnwardTwice(old(History()), past, History());
        ends, ats := ends + [d], ats + [at];
        ok := !d.OtherFailure?;
      }
    }

    /** Sends up to fifty due rows, oldest first. A row leaves the queue only when its POST was answered; a
        network failure reschedules it; any other failure leaves it as it is and ends the flush. No row is
        sent before its creation time plus the delays of all the failures that its posts have had, and exactly the
        network failures of this flush are added to these. */
    method Flush()
      returns (ok: bool, items: seq<Item>, ends: seq<Delivery>, ghost ats: seq<real>, ghost selectedAt: real)
      requires Valid()
      modifies this`horizon, this`steady, this`confirmed, this`flushes, this`failures, queue, server
      ensures Valid() && Onward(old(History()), History()) && flushes == old(flushes) + 1
      ensures Selection(old(queue.rows), selectedAt, 50, items)
      ensures steady ==> WaitedOut(items, selectedAt) && WaitedOutFor(items, old(failures), selectedAt)
      ensures |ends| <= |items| && Counted(old(failures), failures, items, ends)
      ensures FlushState(old(queue.rows), queue.rows, confirmed, server.store, items, ends, ats)
      ensures server.posts == old(server.posts) + Observations(items, |ends|)
      ensures Ended(ok, ends) && (ok ==> |ends| == |items|)
      ensures queue.inserted == old(queue.inserted) && OnlyAcknowledged(old(queue.departed), queue.departed)
    {
      var now := Wall();
      flushes := flushes + 1;
      items := queue.Ready(now, 50);
      selectedAt := now;
      SelectionIsPaced(queue.rows, now, items);
      if steady {
        WaitedOutForFailures(queue.rows, failures, items, now);
      }
      ok, ends, ats := SendAll(items, now);
    }

    /** A flush, for callers that need to know what it posted and left, and whether it raised. */
    method FlushAll() returns (ok: bool, ghost f: FlushLog)
      requires Valid()
      modifies this`horizon, this`steady, this`confirmed, this`flushes, this`failures, queue, server
      ensures Valid() && Onward(old(History()), History())
      ensures FlushesTo(old(queue.rows), f, ok, queue.rows) && Books() == Flushes(old(Books()), f)
      ensures Counted(old(failures), failures, f.items, f.ends)
    {
      var done, items, ends, ats, at := Flush();
      f := FlushLog(at, items, ends);
      FlushLeavesRows(old(queue.rows), f, queue.rows, confirmed, server.store, ats);
      ok := done;
    }

    // -------------------------------------------------------------- one supervised job

    /** The invariant of the agent, of the run, and between them: what was answered is stored, and the events of
        the run account for everything that the agent has done since the run began. */
    ghost predicate Running(run: JobRun)
      reads this`contents, this`confirmed, this`horizon, this`steady, this`flushes, this`failures, queue, server, run
    {
      && Valid() && run.Valid() && AllStored(run.view.answered, server.store)
      && run.view.ledger == Books()
    }

    /** The id stands for this message of this job, and the server does not have it yet. */
    ghost predicate Pending(job: JobId, message: Message, id: Id)
      requires !message.Failure?
      reads this`contents, server`store
    {
      && id in contents && contents[id] == Content(SourceOf(message), Payload(job, ReportOf(message)))
      && id !in server.store
    }

    /** POSTs the final observation itself, with a new time of observation; it is answered only if the server
        has stored exactly it. */
    method SendFinal(job: JobId, message: Message, id: Id) returns (ok: bool, obs: Observation)
      requires Valid() && message.Final? && Pending(job, message, id)
      modifies this`horizon, this`steady, this`confirmed, server
      ensures Valid() && Onward(old(History()), History()) && Carries(obs, id, job, message)
      ensures ok ==> id in server.store && server.store[id] == obs && id in confirmed
      ensures server.posts == old(server.posts) + [obs]
    {
      var stamp := Wall();
      obs := Observation(id, message.source, stamp, Payload(job, ReportOf(message)));
      var d := PostKnown(obs);
      ok := d.Answered?;
      if ok {
        OneMoreConfirmed(queue.departed, confirmed, server.store, id);
        confirmed := confirmed + {id};
      }
    }

    /** Acknowledgement comes from the server before completion is reported. */
    method PostFinal(run: JobRun, message: Message, id: Id) returns (ok: bool, obs: Observation)
      requires Running(run) && message.Final? && run.view.phase == Sending(id, message)
      requires Pending(run.job.id, message, id)
      modifies this`horizon, this`steady, this`confirmed, server, run`trace, run`view, run`monotonic
      ensures Running(run) && Onward(old(History()), History())
      ensures run.view.phase == (if ok then Acking(id) else Failing) && run.view.heard == old(run.view.heard)
      ensures ok ==> id in confirmed && id in server.store && server.store[id] == obs
      ensures server.posts == old(server.posts) + [obs] && Carries(obs, id, run.job.id, message)
      ensures run.trace == old(run.trace) + [Sent(obs, ok)]
    {
      run.Elapse(0.0);
      ok, obs := SendFinal(run.job.id, message, id);
      StillStored(run.view.answered, old(server.store), server.store);
      if ok {
        OneMoreStored(run.view.answered, server.store, obs);
      }
      SentLeads(run.setup, run.view, id, message, obs, ok);
      run.Log(Sent(obs, ok));
    }

    method AckConfirmed(id: Id)
      requires Valid() && id in confirmed
      modifies queue`rows, queue`departed
      ensures Valid() && id !in queue.rows && Grows(old(queue.departed), queue.departed)
    {
      if id in queue.rows {
        assert RowMeans(queue.rows, contents, id);
        ConfirmedIsBacked(queue.departed, confirmed, server.store, contents, id, queue.rows[id]);
        assert confirmed + {id} == confirmed;
      }
      FewerRowsMean(queue.rows, id, contents, horizon);
      FewerTallied(queue.rows, failures, id);
      queue.Ack(id);
    }

    /** Removes the answered row from the queue, unless the database fails first. */
    method AckFinal(run: JobRun, id: Id) returns (ok: bool)
      requires Running(run) && run.view.phase == Acking(id) && id in confirmed
      modifies this`lastJob, queue`rows, queue`departed, run`trace, run`view
      ensures Running(run) && Grows(old(queue.departed), queue.departed)
      ensures run.view.phase == (if ok then Completing else Failing) && SameNews(old(run.view), run.view)
      ensures run.trace == old(run.trace) + [if ok then Event.Acked(id) else AckFault]
      ensures if ok then id !in queue.rows && lastJob == Some(run.job.id)
              else queue.rows == old(queue.rows) && lastJob == old(lastJob)
    {
      var fault: bool := *;
      if fault {
        run.Log(AckFault);
        return false;
      }
      AckConfirmed(id);
      run.Log(Event.Acked(id));
      lastJob := Some(run.job.id);
      ok := true;
    }

    /** After the answer: completion is reported only once the row is removed from the queue. */
    method Settle(run: JobRun, id: Id) returns (verdict: Verdict)
      requires Running(run) && run.view.phase == Acking(id) && id in confirmed
      modifies this`lastJob, queue`rows, queue`departed, run`trace, run`view, run`monotonic, run.worker`alive
      ensures Running(run) && Grows(old(queue.departed), queue.departed) && old(run.trace) <= run.trace
      ensures verdict != GoOn && run.view.phase == PhaseOf(verdict, Stuck) && run.view.heard == old(run.view.heard)
    {
      var ok := AckFinal(run, id);
      verdict := Caught;
      if ok {
        var last, _, _ := run.ReportCompletion();
        verdict := last;
      }
    }

    /** Everything between the final message and the end of the loop: completion is reported only after the
        observation was answered and removed from the queue. */
    method Finish(run: JobRun, message: Message, id: Id) returns (verdict: Verdict)
      requires Running(run) && message.Final? && run.view.phase == Sending(id, message)
      requires Pending(run.job.id, message, id)
      modifies this`horizon, this`steady, this`lastJob, this`confirmed, queue`rows, queue`departed, server
      modifies run`trace, run`view, run`monotonic, run.worker`alive
      ensures Running(run) && Onward(old(History()), History()) && old(run.trace) <= run.trace
      ensures verdict != GoOn && run.view.phase == PhaseOf(verdict, Stuck) && run.view.heard == old(run.view.heard)
    {
      var ok, _ := PostFinal(run, message, id);
      ghost var past := History();
      verdict := Caught;
      if ok {
        verdict := Settle(run, id);
        OnwardTwice(old(History()), past, History());
      }
    }

    /** Puts a received message into the queue, unless the database fails. */
    method Keep(run: JobRun, message: Message) returns (ok: bool, id: Id, ghost row: Row, ghost at: real)
      requires Running(run) && !message.Failure? && run.view.phase == Storing(run.lastBeat, message)
      modifies this`horizon, this`steady, this`contents, this`failures, queue, run`trace, run`view
      ensures Running(run) && run.view.heard == old(run.view.heard)
      ensures run.trace == old(run.trace) + [if ok then Stored(id, message) else StoreFault]
      ensures ok ==> id !in old(contents) && id in queue.rows && Pending(run.job.id, message, id)
      ensures ok ==> contents[id] == Content(if message.Progress? then "discovery" else message.source,
                                             Payload(run.job.id, if message.Progress? then Partial(message.batch)
                                                     else Complete(message.finding)))
      ensures queue.inserted == if ok then old(queue.inserted) + {id} else old(queue.inserted)
      ensures if ok then Enlarged(old(queue.rows), queue.rows, at, queue.retention, id, row, queue.maxItems)
              else queue.rows == old(queue.rows)
      ensures Onward(old(History()), History())
      ensures run.view.phase
           == if !ok then Failing else if message.Progress? then Flushing(run.lastBeat) else Sending(id, message)
    {
      var fault: bool := *;
      ok, id, row, at := !fault, 0, *, *;
      if fault {
        run.Log(StoreFault);
      } else {
        id, row, at := Enqueue(SourceOf(message), Payload(run.job.id, ReportOf(message)));
        run.Log(Stored(id, message));
      }
    }

    /** The same, for a caller that does not look at the table. */
    method Accept(run: JobRun, message: Message) returns (ok: bool, id: Id)
      requires Running(run) && !message.Failure? && run.view.phase == Storing(run.lastBeat, message)
      modifies this`horizon, this`steady, this`contents, this`failures, queue, run`trace, run`view
      ensures Running(run) && run.view.heard == old(run.view.heard) && Onward(old(History()), History())
      ensures run.trace == old(run.trace) + [if ok then Stored(id, message) else StoreFault]
      ensures ok ==> id !in old(contents) && Pending(run.job.id, message, id)
      ensures queue.inserted == if ok then old(queue.inserted) + {id} else old(queue.inserted)
      ensures run.view.phase
           == if !ok then Failing else if message.Progress? then Flushing(run.lastBeat) else Sending(id, message)
    {
      var kept, added, _, _ := Keep(run, message);
      ok, id := kept, added;
    }

    /** The flush after a progress message. */
    method Drain(run: JobRun) returns (verdict: Verdict, ghost posts: seq<Observation>)
      requires Running(run) && run.view.phase == Flushing(run.lastBeat)
      modifies this`horizon, this`steady, this`confirmed, this`flushes, this`failures, queue, server
      modifies run`trace, run`view, run`monotonic
      ensures Running(run) && Onward(old(History()), History())
      ensures Books() == Ledger(old(queue.inserted), old(flushes) + 1, old(server.posts) + posts)
      ensures run.trace == old(run.trace) + [Flushed(verdict.GoOn?, posts)]
      ensures run.view.phase == PhaseOf(verdict, Head(run.lastBeat)) && run.view.heard == old(run.view.heard)
      ensures run.monotonic >= old(run.monotonic) && verdict != Leave
    {
      run.Elapse(0.0);
      var ok, f := FlushAll();
      posts := Observations(f.items, |f.ends|);
      StillStored(run.view.answered, old(server.store), server.store);
      run.Log(Flushed(ok, posts));
      verdict := if ok then GoOn else Caught;
    }

    /** What follows on a queued message: a flush for a progress message, the final report for a result. */
    method Deliver(run: JobRun, message: Message, id: Id) returns (verdict: Verdict)
      requires Running(run) && !message.Failure? && Pending(run.job.id, message, id)
      requires run.view.phase == if message.Progress? then Flushing(run.lastBeat) else Sending(id, message)
      modifies this`horizon, this`steady, this`lastJob, this`confirmed, this`flushes, this`failures, queue, server
      modifies run`trace, run`view, run`monotonic, run.worker`alive
      ensures Running(run) && Onward(old(History()), History()) && old(run.trace) <= run.trace
      ensures run.view.phase == PhaseOf(verdict, Head(run.lastBeat)) && run.view.heard == old(run.view.heard)
      ensures verdict.GoOn? ==> message.Progress? && run.monotonic >= old(run.monotonic)
      ensures queue.inserted == old(queue.inserted)
      ensures flushes == if message.Progress? then old(flushes) + 1 else old(flushes)
    {
      if message.Progress? {
        var drained, _ := Drain(run);
        verdict := drained;
      } else {
        verdict := Finish(run, message, id);
      }
    }

    /** A received message that is no error goes into the queue; a progress message is then flushed with
        everything else that is due, and a final one must be answered before completion is reported. If the
        database fails instead, nothing was queued, flushed or posted. */
    method Handle(run: JobRun, message: Message) returns (verdict: Verdict, kept: bool, id: Id)
      requires Running(run) && !message.Failure? && run.view.phase == Storing(run.lastBeat, message)
      modifies this, queue, server, run`trace, run`view, run`monotonic, run.worker`alive
      ensures Running(run) && Onward(old(History()), History())
      ensures run.view.phase == PhaseOf(verdict, Head(run.lastBeat)) && run.view.heard == old(run.view.heard)
      ensures verdict.GoOn? ==> kept && message.Progress? && run.monotonic >= old(run.monotonic)
      ensures old(run.trace) + [if kept then Stored(id, message) else StoreFault] <= run.trace
      ensures kept ==> id !in old(contents) && id in contents
                       && contents[id] == Content(SourceOf(message), Payload(run.job.id, ReportOf(message)))
      ensures !kept ==> verdict.Caught? && Books() == old(Books())
      ensures kept ==> queue.inserted == old(queue.inserted) + {id}
      ensures flushes == if kept && message.Progress? then old(flushes) + 1 else old(flushes)
    {
      kept, id := Accept(run, message);
      ghost var past := History();
      verdict := Caught;
      if kept {
        verdict := Deliver(run, message, id);
        OnwardTwice(old(History()), past, History());
      }
    }

    /** One round of the supervision loop. A round that hears nothing changes neither the queue nor the server,
        whatever calls the job off in it. Silence of a living worker goes on to the next round; silence of a dead
        one, a broken pipe and an error message are exceptions. */
    method Round(run: JobRun) returns (verdict: Verdict, ghost heard: Option<Heard>)
      requires Running(run) && run.view.phase == Head(run.lastBeat)
      modifies this, queue, server, run, run.worker
      ensures Running(run) && Onward(old(History()), History()) && old(run.trace) <= run.trace
      ensures run.view.phase == PhaseOf(verdict, Head(run.lastBeat))
      ensures if run.worker.next == old(run.worker.next)
              then run.view.heard == old(run.view.heard)
              else old(run.worker.next) < |run.worker.messages| && run.worker.next == old(run.worker.next) + 1
                   && run.view.heard == old(run.view.heard) + [run.worker.messages[old(run.worker.next)]]
      ensures run.worker.next == old(run.worker.next) ==>
                queue.rows == old(queue.rows) && server.store == old(server.store) && Books() == old(Books())
      ensures match heard
              case None => verdict != GoOn
              case Some(Said(message)) => message.Failure? ==> verdict.Caught?
              case Some(Silence(workerAlive)) => verdict == if workerAlive then GoOn else Caught
              case Some(PipeFault) => verdict.Caught?
      ensures heard.Some? && (!heard.value.Said? || heard.value.message.Failure?) ==>
                run.trace[|run.trace| - 1] == Listened(heard.value) && Books() == old(Books())
      ensures verdict.GoOn? && run.worker.next == old(run.worker.next) ==>
                old(run.monotonic) < run.deadline && run.monotonic >= old(run.monotonic) + 1.0
    {
      heard := None;
      var guarded, _, _ := run.Guard();
      if guarded != GoOn {
        return guarded, heard;
      }
      var h := run.Listen();
      heard := Some(h);
      if h == Silence(true) {
        return GoOn, heard;
      }
      if !h.Said? || h.message.Failure? {
        return Caught, heard;
      }
      var handled, _, _ := Handle(run, h.message);
      verdict := handled;
    }

    /** The supervision loop. It ends, since a round either consumes a message or lets a second pass. */
    method Attempt(run: JobRun) returns (faulted: bool)
      requires Running(run) && run.view.phase == Head(run.lastBeat) && run.view.heard == [] && run.worker.next == 0
      modifies this, queue, server, run, run.worker
      ensures Running(run) && Onward(old(History()), History()) && old(run.trace) <= run.trace
      ensures run.view.phase == if faulted then Failing else Leaving(false)
      ensures run.view.heard <= run.worker.messages
    {
      var verdict := GoOn;
      while verdict == GoOn
        invariant Running(run) && Onward(old(History()), History()) && old(run.trace) <= run.trace
        invariant run.view.phase == PhaseOf(verdict, Head(run.lastBeat))
        invariant run.worker.next <= |run.worker.messages| && run.view.heard == run.worker.messages[..run.worker.next]
        decreases verdict == GoOn, |run.worker.messages| - run.worker.next, run.deadline - run.monotonic
      {
        ghost var past := History();
        var next, _ := Round(run);
        verdict := next;
        OnwardTwice(old(History()), past, History());
      }
      faulted := verdict == Caught;
    }

    /** One claimed job from start to end, with the exception handler and the `finally` block. The events
        account for everything that the agent did to its queue and to the server in the meantime. */
    method Supervise(job: Job, worker: Worker) returns (raised: bool, run: JobRun)
      requires Valid() && worker.next == 0
      modifies this, queue, server, worker
      ensures Valid() && Onward(old(History()), History())
      ensures run.job == job && !worker.alive && run.setup.job == job.id && run.setup.timeout == job.timeout
      ensures Finished(run.setup, run.trace) && After(run.setup, run.trace) == Done(raised) && Ordered(run.trace)
      ensures Messages(run.trace) <= worker.messages
      ensures Books() == Account(old(Books()), run.trace)
      ensures forall obs :: Sent(obs, true) in run.trace ==> obs.id in server.store && server.store[obs.id] == obs
    {
      run := new JobRun(job, worker, heartbeatSeconds, Books());
      var faulted := Attempt(run);
      var failed, _ := run.Close(faulted);
      raised := failed;
      LeadsExactly(run.setup, run.base, run.trace, run.view);
      forall obs | Sent(obs, true) in run.trace
        ensures obs.id in server.store && server.store[obs.id] == obs
      {
        AnswersExactly(run.trace, obs);
        assert HeldAt(run.view.answered, server.store, obs);
      }
    }

    /** The supervision of a claimed job whose worker sends these messages. */
    method Attend(offer: Offer, messages: seq<Message>) returns (raised: bool, ghost record: Record)
      requires Valid() && Collected(offer, messages)
      modifies this, queue, server
      ensures Valid() && Onward(old(History()), History())
      ensures record.offer == offer && Supervised(record) && Honest(record, server.store)
      ensures record.before == old(Books()) && record.after == Books() && raised == record.Escaped()
    {
      var worker := new Worker(messages);
      var failed, run := Supervise(offer.job, worker);
      raised := failed;
      record := Record(offer, messages, run.setup, old(Books()), run.trace, Books());
      HonestRun(record, server.store);
    }

    /** A claimed job: its worker and its supervision. */
    method RunJob(offer: Offer) returns (raised: bool, ghost record: Record)
      requires Valid()
      modifies this, queue, server
      ensures Valid() && Onward(old(History()), History())
      ensures record.offer == offer && Supervised(record) && Honest(record, server.store)
      ensures record.before == old(Books()) && record.after == Books() && raised == record.Escaped()
    {
      var messages := Collect(offer.job, offer.completions, offer.reading);
      raised, record := Attend(offer, messages);
    }

    /** One offered job: looked up and claimed, and supervised if the claim is answered with "started" and its
        worker can be set up. */
    method TakeOffer(offer: Offer) returns (raised: bool, ghost taken: seq<Record>)
      requires Valid()
      modifies this, queue, server
      ensures Valid() && Onward(old(History()), History())
      ensures OfferState(offer, old(Books()), taken, raised, Books()) && AllHonest(taken, server.store)
      ensures taken == [] <==> !offer.lookup.Says? || offer.answer != Says(Started) || !offer.starts
      ensures taken == [] ==> (raised <==> !offer.lookup.Says? || !offer.answer.Says? || offer.answer == Says(Started))
    {
      raised, taken := false, [];
      if !offer.lookup.Says? || !offer.answer.Says? {
        raised := true;
      } else if offer.answer.status == Started {
        if offer.starts {
          ghost var record;
          raised, record := RunJob(offer);
          taken := [record];
        } else {
          raised := true;
        }
      }
    }

    /** The job round. Exactly the jobs whose claim is answered with "started" and whose worker can be set up are
        supervised, in order; an exception, in a claim or out of a supervision, ends the round after `n` offers;
        and nothing but the supervisions touches the queue or posts observations. */
    method PollJobs(offers: seq<Offer>) returns (raised: bool, ghost n: nat, ghost records: seq<Record>)
      requires Valid()
      modifies this, queue, server
      ensures Valid() && Onward(old(History()), History())
      ensures AllHonest(records, server.store) && Linked(old(Books()), records, Books())
      ensures RoundState(offers, n, records, raised) && (!raised ==> n == |offers|)
    {
      records, raised := [], false;
      var i := 0;
      while !raised && i < |offers|
        invariant i <= |offers| && Valid() && Onward(old(History()), History())
        invariant AllHonest(records, server.store) && Linked(old(Books()), records, Books())
        invariant RoundState(offers, i, records, raised)
        decreases |offers| - i
      {
        ghost var past, books := History(), Books();
        ghost var taken;
        raised, taken := TakeOffer(offers[i]);
        OnwardTwice(old(History()), past, History());
        RoundStep(offers, i, records, books, taken, raised, Books());
        LinkedNext(old(Books()), records, offers[i], books, taken, raised, Books());
        HonestMore(records, taken, past.store, server.store);
        records := records + taken;
        i := i + 1;
      }
      n := i;
    }

    /** One cycle of the agent: heartbeat, flush, jobs; an exception in one skips the rest of the cycle. */
    method RunCycle(turn: Turn) returns (ghost c: Cycle)
      requires Valid()
      modifies this, queue, server
      ensures Valid() && Onward(old(History()), History())
      ensures c.before == old(Books()) && c.rows == old(queue.rows) && c.after == Books() && c.left == queue.rows
      ensures CycleState(turn, c) && AllHonest(RecordsIn(c.course), server.store)
    {
      ghost var course := Beatless;
      if turn.beats {
        var ok, f := FlushAll();
        course := if ok then Unlisted(f) else Unflushed(f);
        if ok && turn.offers.Some? {
          ghost var past := History();
          var raised, n, records := PollJobs(turn.offers.value);
          OnwardTwice(old(History()), past, History());
          course := Polled(f, n, records, raised);
        }
      }
      c := Cycle(old(Books()), old(queue.rows), course, Books(), queue.rows);
    }

    /** Any number of cycles, whatever the environment has in store for them: the cycles account for all that was
        done to the queue and to the server's observations, nothing ever queued or stored is forgotten, and every
        job ever reported as completed has its result on the server. */
    method RunAgent(work: seq<Turn>) returns (ghost cycles: seq<Cycle>)
      requires Valid()
      modifies this, queue, server
      ensures Valid() && Onward(old(History()), History())
      ensures Chained(work, old(Books()), old(queue.rows), cycles, Books(), queue.rows)
      ensures AllHonest(RecordsOf(cycles), server.store)
    {
      cycles := [];
      for n := 0 to |work|
        invariant Valid() && Onward(old(History()), History())
        invariant Chained(work[..n], old(Books()), old(queue.rows), cycles, Books(), queue.rows)
        invariant AllHonest(RecordsOf(cycles), server.store)
      {
        ghost var past := History();
        var c := RunCycle(work[n]);
        OnwardTwice(old(History()), past, History());
        ChainedNext(work, n, old(Books()), old(queue.rows), cycles, c);
        HonestNext(cycles, c, past.store, server.store);
        cycles := cycles + [c];
      }
      assert work[..|work|] == work;
    }
  }

  /** Conservation: an id ever queued is still queued or has left in one way, with the payload queued under it. If
      it left as acknowledged, its POST was answered, and the server has applied that payload exactly once; if
      not, it was past its retention, or an oldest row of a table at its capacity. */
  lemma EveryIdHasOneFate(agent: AgentClient, id: Id)
    requires agent.Valid() && id in agent.queue.inserted
    ensures id in agent.queue.rows <==> id !in agent.queue.departed
    ensures id in agent.queue.departed ==>
              var fate := agent.queue.departed[id];
              && agent.contents[id] == Content(fate.row.source, fate.row.payload)
              && match fate
                 case Acknowledged(_) =>
                   && id in agent.confirmed && id in agent.server.store
                   && ContentOf(agent.server.store[id]) == agent.contents[id] && agent.server.applied[id] == 1
                 case Evicted(row, full) =>
                   id in full && full[id] == row && |full| >= agent.queue.maxItems
                   && forall other :: other in full ==> row.created <= full[other].created
                 case Pruned(row, at) =>
                   row.created < at - agent.queue.retention
  {
    var queue, server := agent.queue, agent.server;
    assert JustifiedAt(queue.departed, id, queue.maxItems, queue.retention);
    assert FateMeans(queue.departed, agent.contents, id) && BackedAt(queue.departed, agent.confirmed, id);
    assert KnownAt(server.store, agent.contents, id) && AppliedOnce(server.applied, server.store, id);
  }
}
