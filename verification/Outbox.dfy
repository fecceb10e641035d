/** What the agent's invariants say about its queue, its POSTs and the server, and how each step of `flush`
    changes them. */
module Outbox {
  import opened Queue
  import opened Backend

  /** What every submission under one id has in common; the time of observation may differ. */
  datatype Content = Content(source: string, payload: Payload)

  function ContentOf(obs: Observation): Content {
    Content(obs.source, obs.payload)
  }

  ghost predicate PacedAt(rows: Table, id: Id, horizon: real) {
    id in rows ==>
      && rows[id].created <= horizon
      && (rows[id].attempts > 0 ==>
            rows[id].nextAttempt >= rows[id].created + Backoff(rows[id].attempts) as real)
  }

  /** Each recorded failure has cost its row the whole delay: a row tried before is not due again before
      its creation plus the sum of its delays. */
  ghost predicate Paced(rows: Table, horizon: real) {
    forall id :: PacedAt(rows, id, horizon)
  }

  lemma PacedLonger(rows: Table, horizon: real, later: real)
    requires Paced(rows, horizon) && horizon <= later
    ensures Paced(rows, later)
  {
    forall id
      ensures PacedAt(rows, id, later)
    {
      assert PacedAt(rows, id, horizon);
    }
  }

  ghost predicate TalliedAt(rows: Table, failures: map<Id, nat>, id: Id) {
    id in rows ==> id in failures && rows[id].attempts == failures[id]
  }

  /** Every row has recorded exactly the failures of its POSTs. */
  ghost predicate Tallied(rows: Table, failures: map<Id, nat>) {
    forall id :: TalliedAt(rows, failures, id)
  }

  lemma StillTallied(before: Table, after: Table, failures: map<Id, nat>, id: Id)
    requires Tallied(before, failures) && Shrinks(before, after, id)
    requires id in after ==> after[id].attempts == 0
    ensures Tallied(after, failures[id := 0])
  {
    var more := failures[id := 0];
    forall other
      ensures TalliedAt(after, more, other)
    {
      assert TalliedAt(before, failures, other);
    }
  }

  lemma OneMoreTallied(rows: Table, failures: map<Id, nat>, id: Id, now: real)
    requires Tallied(rows, failures) && id in rows
    ensures id in failures
    ensures Tallied(rows[id := Rescheduled(rows[id], rows[id].attempts, now)], failures[id := failures[id] + 1])
  {
    assert TalliedAt(rows, failures, id);
    var after, more := rows[id := Rescheduled(rows[id], rows[id].attempts, now)], failures[id := failures[id] + 1];
    forall other
      ensures TalliedAt(after, more, other)
    {
      assert TalliedAt(rows, failures, other);
    }
  }

  lemma FewerTallied(rows: Table, failures: map<Id, nat>, id: Id)
    requires Tallied(rows, failures)
    ensures Tallied(Without(rows, {id}), failures)
  {
    var fewer := Without(rows, {id});
    forall other
      ensures TalliedAt(fewer, failures, other)
    {
      assert TalliedAt(rows, failures, other);
    }
  }

  ghost predicate KnownAt(store: map<Id, Observation>, contents: map<Id, Content>, id: Id) {
    id in store ==> id in contents && contents[id] == ContentOf(store[id])
  }

  /** Every id in use is known, and the server's observations mean what their ids mean. */
  ghost predicate Known(inserted: set<Id>, store: map<Id, Observation>, contents: map<Id, Content>) {
    inserted <= contents.Keys && forall id :: KnownAt(store, contents, id)
  }

  ghost predicate RowMeans(rows: Table, contents: map<Id, Content>, id: Id) {
    id in rows ==> id in contents && contents[id] == Content(rows[id].source, rows[id].payload)
  }

  ghost predicate RowsMean(rows: Table, contents: map<Id, Content>) {
    forall id :: RowMeans(rows, contents, id)
  }

  ghost predicate PostMeans(posts: seq<Observation>, contents: map<Id, Content>, obs: Observation) {
    obs in posts ==> obs.id in contents && contents[obs.id] == ContentOf(obs)
  }

  /** Every POST ever made under an id had the same source and payload. */
  ghost predicate Meant(posts: seq<Observation>, contents: map<Id, Content>) {
    forall obs :: PostMeans(posts, contents, obs)
  }

  ghost predicate BackedAt(departed: map<Id, Fate>, confirmed: set<Id>, id: Id) {
    id in departed && departed[id].Acknowledged? ==> id in confirmed
  }

  /** What was removed from the queue as acknowledged had its POST answered, and is on the server. */
  ghost predicate Backed(departed: map<Id, Fate>, confirmed: set<Id>, store: map<Id, Observation>) {
    confirmed <= store.Keys && forall id :: BackedAt(departed, confirmed, id)
  }

  ghost predicate FateMeans(departed: map<Id, Fate>, contents: map<Id, Content>, id: Id) {
    id in departed ==>
      id in contents && contents[id] == Content(departed[id].row.source, departed[id].row.payload)
  }

  /** Rows that left carried what their ids stand for. */
  ghost predicate FatesMean(departed: map<Id, Fate>, contents: map<Id, Content>) {
    forall id :: FateMeans(departed, contents, id)
  }

  /** The ids ever queued, what became of those that left, and what the server holds. */
  datatype Past = Past(inserted: set<Id>, departed: map<Id, Fate>, store: map<Id, Observation>)

  /** Nothing of the past is forgotten or changed. */
  ghost predicate Onward(before: Past, after: Past) {
    before.inserted <= after.inserted && Grows(before.departed, after.departed) && Grows(before.store, after.store)
  }

  lemma OnwardTwice(a: Past, b: Past, c: Past)
    requires Onward(a, b) && Onward(b, c)
    ensures Onward(a, c)
  {
    GrowsTwice(a.departed, b.departed, c.departed);
    GrowsTwice(a.store, b.store, c.store);
  }

  // ---------------------------------------------------------------- a new row

  lemma FreshRow(before: Table, after: Table, id: Id, contents: map<Id, Content>)
    requires RowsMean(before, contents) && Shrinks(before, after, id) && id in after && id !in contents
    ensures RowsMean(after, contents[id := Content(after[id].source, after[id].payload)])
  {
    var known := contents[id := Content(after[id].source, after[id].payload)];
    forall other
      ensures RowMeans(after, known, other)
    {
      assert RowMeans(before, contents, other);
    }
  }

  lemma FreshRowIsPaced(before: Table, after: Table, id: Id, horizon: real)
    requires Paced(before, horizon) && Shrinks(before, after, id)
    requires id in after && after[id].created <= horizon && after[id].attempts == 0
    ensures Paced(after, horizon)
  {
    forall other
      ensures PacedAt(after, other, horizon)
    {
      assert PacedAt(before, other, horizon);
    }
  }

  lemma NewMeaning(inserted: set<Id>, store: map<Id, Observation>, posts: seq<Observation>,
                   contents: map<Id, Content>, id: Id, c: Content)
    requires Known(inserted, store, contents) && Meant(posts, contents) && id !in contents
    ensures Known(inserted + {id}, store, contents[id := c]) && Meant(posts, contents[id := c])
  {
    var known := contents[id := c];
    forall other
      ensures KnownAt(store, known, other)
    {
      assert KnownAt(store, contents, other);
    }
    forall obs
      ensures PostMeans(posts, known, obs)
    {
      assert PostMeans(posts, contents, obs);
    }
  }

  lemma StaysBacked(rows: Table, before: map<Id, Fate>, after: map<Id, Fate>, confirmed: set<Id>,
                    store: map<Id, Observation>, contents: map<Id, Content>, id: Id, c: Content)
    requires Backed(before, confirmed, store) && Departs(rows, before, after)
    requires RowsMean(rows, contents) && FatesMean(before, contents) && id !in contents
    ensures Backed(after, confirmed, store) && FatesMean(after, contents[id := c])
  {
    var known := contents[id := c];
    forall other
      ensures BackedAt(after, confirmed, other) && FateMeans(after, known, other)
    {
      assert DepartsAt(rows, before, after, other);
      assert KeptAt(before, after, other) && BackedAt(before, confirmed, other);
      assert RowMeans(rows, contents, other) && FateMeans(before, contents, other);
    }
  }

  // ---------------------------------------------------------------- a POST

  lemma StillKnown(inserted: set<Id>, before: map<Id, Observation>, after: map<Id, Observation>,
                   contents: map<Id, Content>, obs: Observation)
    requires Known(inserted, before, contents) && obs.id in contents && contents[obs.id] == ContentOf(obs)
    requires after == before || (obs.id !in before && after == before[obs.id := obs])
    ensures Known(inserted, after, contents) && Grows(before, after)
  {
    forall id
      ensures KnownAt(after, contents, id)
    {
      assert KnownAt(before, contents, id);
    }
  }

  lemma StillMeant(posts: seq<Observation>, contents: map<Id, Content>, obs: Observation)
    requires Meant(posts, contents) && obs.id in contents && contents[obs.id] == ContentOf(obs)
    ensures Meant(posts + [obs], contents)
  {
    var more := posts + [obs];
    forall other
      ensures PostMeans(more, contents, other)
    {
      assert PostMeans(posts, contents, other);
    }
  }

  lemma StillBacked(departed: map<Id, Fate>, confirmed: set<Id>, store: map<Id, Observation>,
                    store': map<Id, Observation>)
    requires Backed(departed, confirmed, store) && Grows(store, store')
    ensures Backed(departed, confirmed, store')
  {
    forall id | id in confirmed
      ensures id in store'
    {
      assert KeptAt(store, store', id);
    }
  }

  lemma OneMoreConfirmed(departed: map<Id, Fate>, confirmed: set<Id>, store: map<Id, Observation>, id: Id)
    requires Backed(departed, confirmed, store) && id in store
    ensures Backed(departed, confirmed + {id}, store)
  {
    var more := confirmed + {id};
    forall other
      ensures BackedAt(departed, more, other)
    {
      assert BackedAt(departed, confirmed, other);
    }
  }

  /** An id that the server holds is now answered for, and its row goes as acknowledged. */
  lemma ConfirmedIsBacked(departed: map<Id, Fate>, confirmed: set<Id>, store: map<Id, Observation>,
                          contents: map<Id, Content>, id: Id, row: Row)
    requires Backed(departed, confirmed, store) && id in store
    requires FatesMean(departed, contents) && id in contents && contents[id] == Content(row.source, row.payload)
    ensures Backed(departed[id := Acknowledged(row)], confirmed + {id}, store)
    ensures FatesMean(departed[id := Acknowledged(row)], contents)
  {
    var more, after := confirmed + {id}, departed[id := Acknowledged(row)];
    forall other
      ensures BackedAt(after, more, other) && FateMeans(after, contents, other)
    {
      assert BackedAt(departed, confirmed, other) && FateMeans(departed, contents, other);
    }
  }

  lemma FewerRowsMean(rows: Table, id: Id, contents: map<Id, Content>, horizon: real)
    ensures RowsMean(rows, contents) ==> RowsMean(Without(rows, {id}), contents)
    ensures Paced(rows, horizon) ==> Paced(Without(rows, {id}), horizon)
  {
    var fewer := Without(rows, {id});
    forall other
      ensures RowMeans(rows, contents, other) ==> RowMeans(fewer, contents, other)
      ensures PacedAt(rows, other, horizon) ==> PacedAt(fewer, other, horizon)
    {
    }
  }

  lemma RescheduledRowMeans(rows: Table, id: Id, attempts: nat, now: real, contents: map<Id, Content>)
    requires RowsMean(rows, contents) && id in rows
    ensures RowsMean(rows[id := Rescheduled(rows[id], attempts, now)], contents)
  {
    var after := rows[id := Rescheduled(rows[id], attempts, now)];
    forall other
      ensures RowMeans(after, contents, other)
    {
      assert RowMeans(rows, contents, other);
    }
  }

  lemma RetryKeepsPace(before: Table, after: Table, item: Item, from: real, now: real)
    requires Paced(before, from) && from <= now && item.id in before && before[item.id] == item.row
    requires from >= item.row.created + Backoff(item.row.attempts) as real
    requires after == before[item.id := Rescheduled(item.row, item.row.attempts, now)]
    ensures Paced(after, now)
  {
    forall id
      ensures PacedAt(after, id, now)
    {
      assert PacedAt(before, id, from);
    }
  }

  ghost predicate HeldAt(answered: set<Observation>, store: map<Id, Observation>, obs: Observation) {
    obs in answered ==> obs.id in store && store[obs.id] == obs
  }

  /** The server holds exactly these observations, under their ids. */
  ghost predicate AllStored(answered: set<Observation>, store: map<Id, Observation>) {
    forall obs :: HeldAt(answered, store, obs)
  }

  lemma StillStored(answered: set<Observation>, before: map<Id, Observation>, after: map<Id, Observation>)
    requires AllStored(answered, before) && Grows(before, after)
    ensures AllStored(answered, after)
  {
    forall obs
      ensures HeldAt(answered, after, obs)
    {
      assert HeldAt(answered, before, obs) && KeptAt(before, after, obs.id);
    }
  }

  lemma OneMoreStored(answered: set<Observation>, store: map<Id, Observation>, obs: Observation)
    requires AllStored(answered, store) && obs.id in store && store[obs.id] == obs
    ensures AllStored(answered + {obs}, store)
  {
    var more := answered + {obs};
    forall other
      ensures HeldAt(more, store, other)
    {
      assert HeldAt(answered, store, other);
    }
  }

  // ---------------------------------------------------------------- flushing

  function ObservationOf(item: Item): Observation {
    Observation(item.id, item.row.source, item.row.observedAt, item.row.payload)
  }

  /** The observations of the first `n` rows. */
  function Observations(items: seq<Item>, n: nat): seq<Observation>
    requires n <= |items|
  {
    if n == 0 then [] else Observations(items, n - 1) + [ObservationOf(items[n - 1])]
  }

  /** The posts are those of the first `n` rows in order, each with its own id, source, time and payload. */
  lemma {:induction false} ObservationsAt(items: seq<Item>, n: nat, k: nat)
    requires k < n <= |items|
    ensures |Observations(items, n)| == n
    ensures Observations(items, n)[k]
         == Observation(items[k].id, items[k].row.source, items[k].row.observedAt, items[k].row.payload)
  {
    if n > 1 {
      ObservationsAt(items, n - 1, if k < n - 1 then k else 0);
    }
  }

  lemma ObservationsNext(posts: seq<Observation>, items: seq<Item>, n: nat)
    requires n < |items|
    ensures posts + Observations(items, n) + [ObservationOf(items[n])] == posts + Observations(items, n + 1)
  {
  }

  /** The effect of sending one row. */
  ghost predicate Sends(before: Table, after: Table, confirmed: set<Id>, confirmed': set<Id>,
                        store: map<Id, Observation>, item: Item, d: Delivery, at: real)
  {
    match d
    case Answered =>
      after == Without(before, {item.id}) && confirmed' == confirmed + {item.id} && item.id in store
    case NetworkFailure =>
      after == before[item.id := Rescheduled(item.row, item.row.attempts, at)] && confirmed' == confirmed
    case OtherFailure => after == before && confirmed' == confirmed
  }

  /** What has become of a row that was sent. */
  ghost predicate Handled(rows: Table, confirmed: set<Id>, store: map<Id, Observation>,
                          item: Item, d: Delivery, at: real)
  {
    match d
    case Answered => item.id !in rows && item.id in confirmed && item.id in store
    case NetworkFailure => item.id in rows && rows[item.id] == Rescheduled(item.row, item.row.attempts, at)
    case OtherFailure => item.id in rows && rows[item.id] == item.row
  }

  /** One of the first `n` deliveries was of this id, and ended in a network failure. */
  ghost predicate FailedIn(items: seq<Item>, ends: seq<Delivery>, n: nat, id: Id)
    requires n <= |ends| && n <= |items|
  {
    exists k :: 0 <= k < n && items[k].id == id && ends[k].NetworkFailure?
  }

  ghost predicate CountedAt(before: map<Id, nat>, after: map<Id, nat>, items: seq<Item>, ends: seq<Delivery>, id: Id)
    requires |ends| <= |items|
  {
    id in before ==>
      id in after && after[id] == before[id] + if FailedIn(items, ends, |ends|, id) then 1 else 0
  }

  /** Exactly the ids whose delivery ended in a network failure have one more failure. */
  ghost predicate Counted(before: map<Id, nat>, after: map<Id, nat>, items: seq<Item>, ends: seq<Delivery>)
    requires |ends| <= |items|
  {
    forall id :: CountedAt(before, after, items, ends, id)
  }

  lemma CountedNone(failures: map<Id, nat>, items: seq<Item>)
    ensures Counted(failures, failures, items, [])
  {
  }

  lemma FailedNext(items: seq<Item>, ends: seq<Delivery>, d: Delivery, id: Id)
    requires |ends| < |items|
    ensures FailedIn(items, ends + [d], |ends| + 1, id)
       <==> FailedIn(items, ends, |ends|, id) || (items[|ends|].id == id && d.NetworkFailure?)
  {
    var longer, n := ends + [d], |ends|;
    if k :| 0 <= k < n && items[k].id == id && ends[k].NetworkFailure? {
      assert longer[k].NetworkFailure?;
    }
    if items[n].id == id && d.NetworkFailure? {
      assert longer[n].NetworkFailure?;
    }
  }

  lemma CountedNext(before: map<Id, nat>, middle: map<Id, nat>, after: map<Id, nat>, items: seq<Item>,
                    ends: seq<Delivery>, d: Delivery)
    requires |ends| < |items| && Counted(before, middle, items, ends)
    requires forall i, j :: 0 <= i < j < |items| ==> items[i].id != items[j].id
    requires var id := items[|ends|].id;
             id in middle && after == if d.NetworkFailure? then middle[id := middle[id] + 1] else middle
    ensures Counted(before, after, items, ends + [d])
  {
    var n, longer := |ends|, ends + [d];
    assert !FailedIn(items, ends, n, items[n].id);
    forall id
      ensures CountedAt(before, after, items, longer, id)
    {
      assert CountedAt(before, middle, items, ends, id);
      FailedNext(items, ends, d, id);
    }
  }

  /** By `now`, every row has waited out the delays of all the failures that there were. */
  ghost predicate WaitedOutFor(items: seq<Item>, failures: map<Id, nat>, now: real) {
    forall k :: 0 <= k < |items| ==>
                  items[k].id in failures && now >= items[k].row.created + Backoff(failures[items[k].id]) as real
  }

  /** The rows to send are in the queue, each once. */
  ghost predicate QueuedOnce(rows: Table, due: seq<Item>) {
    && (forall i :: 0 <= i < |due| ==> due[i].id in rows && due[i].row == rows[due[i].id])
    && (forall i, j :: 0 <= i < j < |due| ==> due[i].id != due[j].id)
  }

  /** By `now`, every row has waited out the delays of all its recorded failures. */
  ghost predicate WaitedOut(items: seq<Item>, now: real) {
    forall k :: 0 <= k < |items| ==> now >= items[k].row.created + Backoff(items[k].row.attempts) as real
  }

  lemma WaitedOutForFailures(rows: Table, failures: map<Id, nat>, items: seq<Item>, now: real)
    requires Tallied(rows, failures) && QueuedOnce(rows, items) && WaitedOut(items, now)
    ensures WaitedOutFor(items, failures, now)
  {
    forall k | 0 <= k < |items|
      ensures items[k].id in failures && now >= items[k].row.created + Backoff(failures[items[k].id]) as real
    {
      assert TalliedAt(rows, failures, items[k].id);
    }
  }

  ghost predicate OtherKept(before: Table, after: Table, sent: seq<Item>, id: Id) {
    && (id in after ==> id in before)
    && (id in before && id !in Ids(sent) ==> id in after && after[id] == before[id])
  }

  ghost predicate OthersKept(before: Table, after: Table, sent: seq<Item>) {
    forall id :: OtherKept(before, after, sent, id)
  }

  /** The first `|ends|` of the due rows have been handled as their deliveries ended; no other row has changed. */
  ghost predicate FlushState(before: Table, rows: Table, confirmed: set<Id>, store: map<Id, Observation>,
                             due: seq<Item>, ends: seq<Delivery>, ats: seq<real>)
  {
    && |ats| == |ends| <= |due|
    && (forall k :: 0 <= k < |ends| ==> Handled(rows, confirmed, store, due[k], ends[k], ats[k]))
    && OthersKept(before, rows, due[..|ends|])
  }

  ghost predicate AcknowledgedOrKept(before: map<Id, Fate>, after: map<Id, Fate>, id: Id) {
    id in after ==> after[id].Acknowledged? || (id in before && after[id] == before[id])
  }

  ghost predicate OnlyAcknowledged(before: map<Id, Fate>, after: map<Id, Fate>) {
    forall id :: AcknowledgedOrKept(before, after, id)
  }

  /** Only the last delivery can have ended the flush, and it did exactly when the flush failed. */
  ghost predicate Ended(ok: bool, ends: seq<Delivery>) {
    && (!ok ==> ends != [])
    && forall k :: 0 <= k < |ends| ==> (ends[k].OtherFailure? <==> !ok && k == |ends| - 1)
  }

  lemma SelectionIsPaced(rows: Table, now: real, items: seq<Item>)
    requires Selection(rows, now, 50, items)
    ensures QueuedOnce(rows, items)
    ensures Paced(rows, now) ==> WaitedOut(items, now)
  {
    if Paced(rows, now) {
      forall k | 0 <= k < |items|
        ensures now >= items[k].row.created + Backoff(items[k].row.attempts) as real
      {
        assert PacedAt(rows, items[k].id, now);
      }
    }
  }

  lemma NextIsQueued(before: Table, rows: Table, due: seq<Item>, n: nat)
    requires n < |due| && OthersKept(before, rows, due[..n]) && QueuedOnce(before, due)
    ensures due[n].id in rows && rows[due[n].id] == due[n].row
  {
    assert due[n].id !in Ids(due[..n]);
    assert OtherKept(before, rows, due[..n], due[n].id);
  }

  lemma FlushStep(before: Table, rows: Table, rows': Table, confirmed: set<Id>, confirmed': set<Id>,
                  store: map<Id, Observation>, store': map<Id, Observation>,
                  due: seq<Item>, ends: seq<Delivery>, ats: seq<real>, d: Delivery, at: real)
    requires FlushState(before, rows, confirmed, store, due, ends, ats) && |ends| < |due|
    requires QueuedOnce(before, due)
    requires due[|ends|].id in rows && rows[due[|ends|].id] == due[|ends|].row
    requires Sends(rows, rows', confirmed, confirmed', store', due[|ends|], d, at) && Grows(store, store')
    ensures FlushState(before, rows', confirmed', store', due, ends + [d], ats + [at])
  {
    var n := |ends|;
    assert due[..n + 1] == due[..n] + [due[n]];
    IdsAppend(due[..n], due[n]);
    forall k | 0 <= k < n + 1
      ensures Handled(rows', confirmed', store', due[k], (ends + [d])[k], (ats + [at])[k])
    {
      if k < n {
        assert Handled(rows, confirmed, store, due[k], ends[k], ats[k]);
        assert KeptAt(store, store', due[k].id);
      }
    }
    var sent := due[..n + 1];
    forall id
      ensures OtherKept(before, rows', sent, id)
    {
      assert OtherKept(before, rows, due[..n], id);
    }
  }

  // ---------------------------------------------------------------- a row that is never answered readably

  /** A flush: when it selected which rows, and how the POSTs it made ended. */
  datatype FlushLog = FlushLog(at: real, items: seq<Item>, ends: seq<Delivery>)

  /** What a flush of these rows does: due rows, oldest first, until one ends in neither an answer nor a network
      failure. */
  ghost predicate FlushRun(rows: Table, f: FlushLog, ok: bool) {
    && Selection(rows, f.at, 50, f.items) && |f.ends| <= |f.items|
    && Ended(ok, f.ends) && (ok ==> |f.ends| == |f.items|)
  }

  /** What a flush leaves of the table: no new row, no new creation time, and what could not be read as it was. */
  ghost predicate FlushLeaves(rows: Table, f: FlushLog, left: Table)
    requires |f.ends| <= |f.items|
  {
    && (forall id :: id in left ==> id in rows && left[id].created == rows[id].created)
    && (forall k :: 0 <= k < |f.ends| && f.ends[k].OtherFailure? ==>
                      f.items[k].id in left && left[f.items[k].id] == f.items[k].row)
    && (forall k :: 0 <= k < |f.ends| && f.ends[k].NetworkFailure? ==>
                      f.items[k].id in left && left[f.items[k].id].attempts == f.items[k].row.attempts + 1)
    && (forall k :: 0 <= k < |f.ends| && f.ends[k].Answered? ==> f.items[k].id !in left)
    && OthersKept(rows, left, f.items[..|f.ends|])
  }

  lemma FlushLeavesRows(rows: Table, f: FlushLog, left: Table, confirmed: set<Id>, store: map<Id, Observation>,
                        ats: seq<real>)
    requires FlushState(rows, left, confirmed, store, f.items, f.ends, ats)
    requires forall i :: 0 <= i < |f.items| ==> f.items[i].id in rows && f.items[i].row == rows[f.items[i].id]
    ensures FlushLeaves(rows, f, left)
  {
    var sent := f.items[..|f.ends|];
    forall id | id in left
      ensures id in rows && left[id].created == rows[id].created
    {
      assert OtherKept(rows, left, sent, id);
      if id in Ids(sent) {
        var k :| 0 <= k < |sent| && sent[k].id == id;
        assert Handled(left, confirmed, store, f.items[k], f.ends[k], ats[k]);
      }
    }
    forall k | 0 <= k < |f.ends|
      ensures f.ends[k].OtherFailure? ==> f.items[k].id in left && left[f.items[k].id] == f.items[k].row
      ensures f.ends[k].Answered? ==> f.items[k].id !in left
      ensures f.ends[k].NetworkFailure? ==>
                f.items[k].id in left && left[f.items[k].id].attempts == f.items[k].row.attempts + 1
    {
      assert Handled(left, confirmed, store, f.items[k], f.ends[k], ats[k]);
    }
  }

  /** A flush gets past its first row exactly if that row's POST was answered readably or failed as a network
      failure; if not, the first row is all it sent. It gets through exactly if no POST ended otherwise. */
  lemma FlushGetsPastFirst(rows: Table, f: FlushLog, ok: bool)
    requires FlushRun(rows, f, ok) && f.items != []
    ensures f.ends != [] && (f.ends[0].OtherFailure? <==> !ok && |f.ends| == 1)
    ensures f.ends[0].OtherFailure? ==> Observations(f.items, |f.ends|) == [ObservationOf(f.items[0])]
    ensures ok <==> forall k :: 0 <= k < |f.ends| ==> !f.ends[k].OtherFailure?
  {
    assert !ok ==> f.ends[|f.ends| - 1].OtherFailure?;
    if f.ends[0].OtherFailure? {
      assert Observations(f.items, 1) == Observations(f.items, 0) + [ObservationOf(f.items[0])];
    }
  }

  /** Every POST of the row in this flush, if there was one, ended otherwise. */
  ghost predicate Unreadable(f: FlushLog, id: Id) {
    forall k :: 0 <= k < |f.ends| && k < |f.items| && f.items[k].id == id ==> f.ends[k].OtherFailure?
  }

  /** The rows that are no newer than this one, itself included. */
  ghost function NoNewerThan(rows: Table, id: Id): set<Id>
    requires id in rows
  {
    set other | other in rows && rows[other].created <= rows[id].created
  }

  lemma {:induction false} IdsCount(items: seq<Item>)
    requires forall i, j :: 0 <= i < j < |items| ==> items[i].id != items[j].id
    ensures |Ids(items)| == |items|
  {
    if items != [] {
      var n := |items| - 1;
      IdsCount(items[..n]);
      IdsAppend(items[..n], items[n]);
      assert items == items[..n] + [items[n]];
      assert items[n].id !in Ids(items[..n]);
    }
  }

  lemma SubsetIsSmaller(a: set<Id>, b: set<Id>)
    requires a <= b
    ensures |a| <= |b|
  {
    assert b == a + (b - a);
  }

  /** A due row is selected if at most fifty rows are no newer. */
  lemma DueIsSelected(rows: Table, at: real, items: seq<Item>, id: Id)
    requires Selection(rows, at, 50, items) && id in Due(rows, at) && |NoNewerThan(rows, id)| <= 50
    ensures id in Ids(items)
  {
    if id !in Ids(items) {
      IdsCount(items);
      SubsetIsSmaller(Ids(items) + {id}, NoNewerThan(rows, id));
      assert false;
    }
  }

  /** A flush that meets a due row whose POST ends otherwise sends nothing strictly newer; and if at most fifty
      rows are no newer, it ends at that row or before, and the row is left as it is. */
  lemma UnreadableRowBlocks(rows: Table, f: FlushLog, ok: bool, id: Id)
    requires FlushRun(rows, f, ok) && id in Due(rows, f.at) && Unreadable(f, id)
    ensures forall k :: 0 <= k < |f.ends| ==> f.items[k].row.created <= rows[id].created
    ensures |NoNewerThan(rows, id)| <= 50 ==> !ok
  {
    if id in Ids(f.items) {
      var j :| 0 <= j < |f.items| && f.items[j].id == id;
      assert j < |f.ends| ==> f.ends[j].OtherFailure?;
      assert |f.ends| <= j + 1;
      assert forall k :: 0 <= k < j ==> f.items[k].row.created <= f.items[j].row.created;
    } else {
      assert id in Due(rows, f.at) - Ids(f.items);
    }
    if |NoNewerThan(rows, id)| <= 50 {
      DueIsSelected(rows, f.at, f.items, id);
    }
  }

  /** The row is still there afterwards, unchanged, and no more rows than before are no newer. */
  lemma UnreadableRowStays(rows: Table, f: FlushLog, ok: bool, left: Table, id: Id)
    requires FlushRun(rows, f, ok) && FlushLeaves(rows, f, left) && id in rows && Unreadable(f, id)
    ensures id in left && left[id] == rows[id] && |NoNewerThan(left, id)| <= |NoNewerThan(rows, id)|
  {
    var sent := f.items[..|f.ends|];
    if id in Ids(sent) {
      var k :| 0 <= k < |sent| && sent[k].id == id;
      assert f.items[k].id == id && f.ends[k].OtherFailure?;
    }
    assert OtherKept(rows, left, sent, id);
    forall other | other in NoNewerThan(left, id)
      ensures other in NoNewerThan(rows, id)
    {
      assert other in left && left[other].created == rows[other].created;
    }
    SubsetIsSmaller(NoNewerThan(left, id), NoNewerThan(rows, id));
  }

  lemma StillOnlyAcknowledged(before: map<Id, Fate>, now: map<Id, Fate>, id: Id, row: Row)
    requires OnlyAcknowledged(before, now)
    ensures OnlyAcknowledged(before, now[id := Acknowledged(row)])
  {
    var after := now[id := Acknowledged(row)];
    forall other
      ensures AcknowledgedOrKept(before, after, other)
    {
      assert AcknowledgedOrKept(before, now, other);
    }
  }

  lemma Above(used: set<Id>) returns (top: Id)
    ensures forall id :: id in used ==> id < top
    decreases |used|
  {
    if used == {} {
      top := 0;
    } else {
      var x := SomeMember(used);
      var rest := Above(used - {x});
      top := if x < rest then rest else x + 1;
      assert forall id :: id in used ==> id == x || id in used - {x};
    }
  }

  lemma FreshId(used: set<Id>)
    ensures exists id: Id :: id !in used
  {
    var top := Above(used);
    assert top !in used;
  }
}
