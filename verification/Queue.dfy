/** The agent's durable observation queue: a bounded table of rows with retention, capacity eviction,
    due-time selection and exponential backoff. Clock readings are parameters. */
module Queue {
  import opened Cidr
  import opened Collectors

  type Id = int

  datatype Report = Partial(batch: Batch) | Complete(finding: Finding)
  datatype Payload = Payload(job: JobId, report: Report)

  datatype Row = Row(
    source: string, observedAt: real, payload: Payload, attempts: nat, nextAttempt: real, created: real)
  datatype Item = Item(id: Id, row: Row)

  type Table = map<Id, Row>

  // ---------------------------------------------------------------- backoff

  /** Seconds until the next try, when `attempts` earlier failures are recorded. */
  function Delay(attempts: nat): nat {
    Min(300, Pow2(Min(attempts + 1, 8)))
  }

  /** The least total wait that `failures` recorded failures impose. */
  function Backoff(failures: nat): nat {
    if failures == 0 then 0 else Backoff(failures - 1) + Delay(failures - 1)
  }

  lemma {:induction false} Pow2Below256(n: nat)
    requires n <= 8
    ensures Pow2(n) <= 256 && (n >= 1 ==> Pow2(n) >= 2) && (n == 8 ==> Pow2(n) == 256)
    decreases 8 - n
  {
    if n < 8 {
      Pow2Below256(n + 1);
    } else {
      Pow2Splits(4, 4);
    }
  }

  /** Every delay lies between 2 and 256 seconds, so the cap of 300 never binds. */
  lemma DelayBounds(attempts: nat)
    ensures 2 <= Delay(attempts) <= 256 && Delay(attempts) == Pow2(Min(attempts + 1, 8))
  {
    Pow2Below256(Min(attempts + 1, 8));
  }

  lemma {:induction false} BackoffClosedForm(k: nat)
    ensures Backoff(k) == if k <= 8 then Pow2(k + 1) - 2 else 510 + 256 * (k - 8)
  {
    if k > 0 {
      BackoffClosedForm(k - 1);
      DelayBounds(k - 1);
      Pow2Below256(8);
    }
  }

  // ---------------------------------------------------------------- table facts

  function Expired(rows: Table, cutoff: real): set<Id> {
    set id | id in rows && rows[id].created < cutoff
  }

  function Without(rows: Table, gone: set<Id>): Table {
    map id | id in rows && id !in gone :: rows[id]
  }

  lemma WithoutOne(rows: Table, id: Id)
    requires id in rows
    ensures |Without(rows, {id})| == |rows| - 1
  {
    assert rows.Keys == Without(rows, {id}).Keys + {id};
  }

  lemma WithoutTwice(rows: Table, gone: set<Id>, more: set<Id>)
    ensures Without(Without(rows, gone), more) == Without(rows, gone + more)
  {
  }

  predicate Oldest(rows: Table, ids: set<Id>, id: Id)
    requires ids <= rows.Keys
  {
    id in ids && forall other :: other in ids ==> rows[id].created <= rows[other].created
  }

  lemma SomeMember(ids: set<Id>) returns (x: Id)
    requires ids != {}
    ensures x in ids
  {
    assert (forall other: Id :: other !in ids) ==> ids == {};
    x :| x in ids;
  }

  lemma {:induction false} OldestExists(rows: Table, ids: set<Id>)
    requires ids != {} && ids <= rows.Keys
    ensures exists id :: Oldest(rows, ids, id)
    decreases |ids|
  {
    var x := SomeMember(ids);
    var rest := ids - {x};
    if rest == {} {
      assert ids == {x};
      assert Oldest(rows, ids, x);
    } else {
      assert |rest| == |ids| - 1;
      OldestExists(rows, rest);
      var y :| Oldest(rows, rest, y);
      var least := if rows[x].created <= rows[y].created then x else y;
      assert forall other :: other in ids ==> other == x || other in rest;
      assert Oldest(rows, ids, least);
    }
  }

  /** Nothing of `gone` is newer than anything of `kept`. */
  ghost predicate NoNewer(rows: Table, gone: set<Id>, kept: set<Id>)
    requires gone <= rows.Keys && kept <= rows.Keys
  {
    forall g, k :: g in gone && k in kept ==> rows[g].created <= rows[k].created
  }

  /** `rows` is `before` without `gone`, and what is gone is no newer than what is left. */
  ghost predicate Thinned(before: Table, rows: Table, gone: set<Id>) {
    && gone <= before.Keys && rows == Without(before, gone) && NoNewer(before, gone, rows.Keys)
    && |gone| == |before| - |rows|
  }

  lemma ThinnedNone(rows: Table)
    ensures Thinned(rows, rows, {})
  {
  }

  lemma ThinnedNext(before: Table, rows: Table, gone: set<Id>, id: Id, after: Table)
    requires Thinned(before, rows, gone) && Oldest(rows, rows.Keys, id)
    requires after == Without(rows, {id}) && |after| == |rows| - 1
    ensures Thinned(before, after, gone + {id})
  {
    WithoutTwice(before, gone, {id});
    assert id !in gone;
  }

  // ---------------------------------------------------------------- the eviction loop

  /** One round of the eviction loop: a row of least creation time is deleted, and from an empty table
      nothing is. */
  ghost predicate Evicts(before: Table, after: Table) {
    if before.Keys == {} then after == before
    else exists id :: Oldest(before, before.Keys, id) && after == Without(before, {id})
  }

  /** The tables of the loop, one for each round. */
  ghost predicate Evictions(tables: seq<Table>) {
    tables != [] && forall i, j :: 0 <= i < |tables| && j == i + 1 && j < |tables| ==> Evicts(tables[i], tables[j])
  }

  lemma EvictsOne(before: Table, after: Table)
    requires Evicts(before, after)
    ensures |after| == if |before| == 0 then 0 else |before| - 1
  {
    if before.Keys != {} {
      var id :| Oldest(before, before.Keys, id) && after == Without(before, {id});
      WithoutOne(before, id);
      assert |before| == |before.Keys| > 0;
    } else {
      assert |before.Keys| == 0;
    }
  }

  /** Whichever of the oldest rows goes first, the number of rows falls by one a round until none is left. */
  lemma {:induction false} EvictionsCount(tables: seq<Table>, n: nat)
    requires Evictions(tables) && n < |tables|
    ensures |tables[n]| == if n <= |tables[0]| then |tables[0]| - n else 0
  {
    if n > 0 {
      EvictionsCount(tables, n - 1);
      EvictsOne(tables[n - 1], tables[n]);
    }
  }

  lemma {:induction false} EvictionsExist(rows: Table, n: nat) returns (tables: seq<Table>)
    ensures Evictions(tables) && tables[0] == rows && |tables| == n + 1
  {
    if n == 0 {
      tables := [rows];
    } else {
      var rest := EvictionsExist(rows, n - 1);
      var last := rest[n - 1];
      var next := last;
      if last.Keys != {} {
        OldestExists(last, last.Keys);
        var id :| Oldest(last, last.Keys, id);
        next := Without(last, {id});
      }
      tables := rest + [next];
    }
  }

  /** The loop guard becomes false in some round exactly when the capacity is at least one, whatever the table
      holds; and then it does so in every run of the loop, within as many rounds as there are rows. */
  lemma EvictionTerminatesExactly(rows: Table, maxItems: int)
    ensures maxItems >= 1
       <==> exists tables :: Evictions(tables) && tables[0] == rows && |tables[|tables| - 1]| < maxItems
    ensures maxItems >= 1 ==> forall tables :: Evictions(tables) && tables[0] == rows && |tables| > |rows| ==>
                                                 |tables[|rows|]| < maxItems
  {
    var run := EvictionsExist(rows, |rows|);
    EvictionsCount(run, |rows|);
    forall tables | Evictions(tables) && tables[0] == rows && |tables| > |rows|
      ensures |tables[|rows|]| == 0
    {
      EvictionsCount(tables, |rows|);
    }
  }

  // ---------------------------------------------------------------- departures

  /** How a row left the table, with the row as it left and the evidence: what retention was reckoned from, or
      the table that had no room. */
  datatype Fate =
    | Acknowledged(row: Row)
    | Evicted(row: Row, full: Table)
    | Pruned(row: Row, at: real)

  /** An evicted row was an oldest one of a table at its capacity; a pruned row was past its retention. */
  ghost predicate Justified(id: Id, fate: Fate, maxItems: int, retention: real) {
    match fate
    case Acknowledged(_) => true
    case Evicted(row, full) => id in full && full[id] == row && Oldest(full, full.Keys, id) && |full| >= maxItems
    case Pruned(row, at) => row.created < at - retention
  }

  ghost predicate JustifiedAt(departed: map<Id, Fate>, id: Id, maxItems: int, retention: real) {
    id in departed ==> Justified(id, departed[id], maxItems, retention)
  }

  ghost predicate AllJustified(departed: map<Id, Fate>, maxItems: int, retention: real) {
    forall id :: JustifiedAt(departed, id, maxItems, retention)
  }

  ghost predicate KeptAt<K, V>(before: map<K, V>, after: map<K, V>, k: K) {
    k in before ==> k in after && after[k] == before[k]
  }

  ghost predicate Grows<K(!new), V>(before: map<K, V>, after: map<K, V>) {
    forall k: K :: KeptAt(before, after, k)
  }

  lemma GrowsTwice<K(!new), V>(a: map<K, V>, b: map<K, V>, c: map<K, V>)
    requires Grows(a, b) && Grows(b, c)
    ensures Grows(a, c)
  {
    forall k: K
      ensures KeptAt(a, c, k)
    {
      assert KeptAt(a, b, k) && KeptAt(b, c, k);
    }
  }

  /** Exactly the rows `gone` have left, as they were; nothing else that had left is forgotten. */
  ghost predicate Left(rows: Table, departed: map<Id, Fate>, gone: set<Id>, after: map<Id, Fate>) {
    && gone <= rows.Keys && after.Keys == departed.Keys + gone
    && (forall id :: id in departed && id !in gone ==> after[id] == departed[id])
    && (forall id :: id in gone ==> after[id].row == rows[id])
  }

  /** Moving rows out of the table keeps table and departures in balance, and apart if they were; and then no
      earlier departure is changed. */
  lemma LeavingBalances(rows: Table, departed: map<Id, Fate>, gone: set<Id>, after: map<Id, Fate>)
    requires Left(rows, departed, gone, after)
    ensures Without(rows, gone).Keys + after.Keys == rows.Keys + departed.Keys
    ensures rows.Keys !! departed.Keys ==> Without(rows, gone).Keys !! after.Keys && Grows(departed, after)
  {
  }

  lemma LeavingTwice(rows: Table, departed: map<Id, Fate>, gone: set<Id>, middle: map<Id, Fate>, more: set<Id>,
                     after: map<Id, Fate>)
    requires Left(rows, departed, gone, middle) && Left(Without(rows, gone), middle, more, after)
    ensures Left(rows, departed, gone + more, after)
  {
  }

  function PrunedAt(rows: Table, gone: set<Id>, at: real): map<Id, Fate>
    requires gone <= rows.Keys
  {
    map id | id in gone :: Pruned(rows[id], at)
  }

  lemma PruningIsJustified(rows: Table, departed: map<Id, Fate>, at: real, maxItems: int, retention: real)
    requires AllJustified(departed, maxItems, retention)
    ensures var gone := Expired(rows, at - retention);
            && Left(rows, departed, gone, departed + PrunedAt(rows, gone, at))
            && AllJustified(departed + PrunedAt(rows, gone, at), maxItems, retention)
  {
    var after := departed + PrunedAt(rows, Expired(rows, at - retention), at);
    forall id
      ensures JustifiedAt(after, id, maxItems, retention)
    {
      assert JustifiedAt(departed, id, maxItems, retention);
    }
  }

  /** The rows `gone` were evicted from tables that held nothing but rows of `before`. */
  ghost predicate EvictedFrom(before: Table, gone: set<Id>, departed: map<Id, Fate>) {
    forall id :: id in gone ==> id in departed && departed[id].Evicted? && Grows(departed[id].full, before)
  }

  /** What becomes of one id when the rows `gone` are evicted. */
  ghost predicate LeavesAt(rows: Table, departed: map<Id, Fate>, gone: set<Id>, after: map<Id, Fate>, id: Id) {
    if id in gone then
      id in rows && id in after && after[id].Evicted? && after[id].row == rows[id] && Grows(after[id].full, rows)
    else (id in after <==> id in departed) && (id in departed ==> after[id] == departed[id])
  }

  ghost predicate Leaves(rows: Table, departed: map<Id, Fate>, gone: set<Id>, after: map<Id, Fate>) {
    forall id :: LeavesAt(rows, departed, gone, after, id)
  }

  lemma LeftLeaves(rows: Table, departed: map<Id, Fate>, gone: set<Id>, after: map<Id, Fate>)
    requires Left(rows, departed, gone, after) && EvictedFrom(rows, gone, after)
    ensures Leaves(rows, departed, gone, after)
  {
    forall id
      ensures LeavesAt(rows, departed, gone, after, id)
    {
    }
  }

  /** The eviction loop so far. */
  ghost predicate EvictionState(before: Table, departed: map<Id, Fate>, rows: Table, after: map<Id, Fate>,
                                gone: set<Id>)
  {
    Thinned(before, rows, gone) && Left(before, departed, gone, after) && EvictedFrom(before, gone, after)
  }

  lemma LeftNext(before: Table, departed: map<Id, Fate>, middle: map<Id, Fate>, gone: set<Id>, id: Id, fate: Fate)
    requires Left(before, departed, gone, middle) && id in before && fate.row == before[id]
    ensures Left(before, departed, gone + {id}, middle[id := fate])
  {
  }

  lemma EvictedNext(before: Table, gone: set<Id>, middle: map<Id, Fate>, id: Id, fate: Fate)
    requires EvictedFrom(before, gone, middle) && fate.Evicted? && Grows(fate.full, before)
    ensures EvictedFrom(before, gone + {id}, middle[id := fate])
  {
  }

  lemma EvictionNext(before: Table, departed: map<Id, Fate>, rows: Table, middle: map<Id, Fate>, gone: set<Id>,
                     id: Id, rows': Table)
    requires EvictionState(before, departed, rows, middle, gone) && Oldest(rows, rows.Keys, id)
    requires rows' == Without(rows, {id}) && |rows'| == |rows| - 1
    ensures EvictionState(before, departed, rows', middle[id := Evicted(rows[id], rows)], gone + {id})
  {
    ThinnedNext(before, rows, gone, id, rows');
    LeftNext(before, departed, middle, gone, id, Evicted(rows[id], rows));
    EvictedNext(before, gone, middle, id, Evicted(rows[id], rows));
  }

  lemma EvictionIsJustified(departed: map<Id, Fate>, id: Id, rows: Table, maxItems: int, retention: real)
    requires AllJustified(departed, maxItems, retention) && Oldest(rows, rows.Keys, id) && |rows| >= maxItems
    ensures AllJustified(departed[id := Evicted(rows[id], rows)], maxItems, retention)
  {
    var after := departed[id := Evicted(rows[id], rows)];
    forall other
      ensures JustifiedAt(after, other, maxItems, retention)
    {
      assert JustifiedAt(departed, other, maxItems, retention);
    }
  }

  lemma AcknowledgementIsJustified(departed: map<Id, Fate>, id: Id, row: Row, maxItems: int, retention: real)
    requires AllJustified(departed, maxItems, retention)
    ensures AllJustified(departed[id := Acknowledged(row)], maxItems, retention)
    ensures id !in departed ==> Grows(departed, departed[id := Acknowledged(row)])
  {
    var after := departed[id := Acknowledged(row)];
    forall other
      ensures JustifiedAt(after, other, maxItems, retention)
    {
      assert JustifiedAt(departed, other, maxItems, retention);
    }
  }

  /** An insertion into what retention has left: first as many rows as needed are evicted, oldest first, so that
      one more fits; then the row is there, unless its id survived with its old one. */
  ghost predicate Added(live: Table, rows: Table, gone: set<Id>, id: Id, row: Row, maxItems: int) {
    && gone <= live.Keys && NoNewer(live, gone, live.Keys - gone)
    && |gone| == (if |live| < maxItems then 0 else |live| - maxItems + 1)
    && rows == (if id in live.Keys - gone then Without(live, gone) else Without(live, gone)[id := row])
    && |rows| <= maxItems
  }

  /** What is left of `live` once the eviction loop has ended, or if it never does. */
  ghost predicate MadeRoom(live: Table, rows: Table, gone: set<Id>, ended: bool, maxItems: int) {
    if ended
    then Thinned(live, rows, gone) && |rows| < maxItems
         && |gone| == if |live| < maxItems then 0 else |live| - maxItems + 1
    else rows == live && gone == {}
  }

  lemma AddedToRoom(live: Table, room: Table, gone: set<Id>, maxItems: int, id: Id, row: Row, rows: Table)
    requires MadeRoom(live, room, gone, true, maxItems)
    requires rows == if id in room then room else room[id := row]
    ensures Added(live, rows, gone, id, row, maxItems)
  {
    assert Without(live, gone).Keys == live.Keys - gone;
  }

  /** Apart from `id`, every row that is there was there before, unchanged. */
  ghost predicate Shrinks(before: Table, after: Table, id: Id) {
    forall other :: other in after && other != id ==> other in before && after[other] == before[other]
  }

  /** No row of the table but this one is older than that. */
  ghost predicate OlderThanRest(created: real, rows: Table, id: Id) {
    forall other :: other in rows && other != id ==> created <= rows[other].created
  }

  ghost predicate EnlargedAt(before: Table, rows: Table, at: real, retention: real, id: Id, maxItems: int, other: Id) {
    && (other in rows && other != id ==>
          other in before && rows[other] == before[other] && before[other].created >= at - retention)
    && (other in before && before[other].created >= at - retention && other !in rows ==>
          |rows| == maxItems && OlderThanRest(before[other].created, rows, id))
  }

  /** An insertion under a new id: the row is there, the table is within its capacity, all other rows are old ones
      within their retention, and such a row is gone only if the table is full and holds no older one. */
  ghost predicate Enlarged(before: Table, rows: Table, at: real, retention: real, id: Id, row: Row, maxItems: int) {
    && id in rows && rows[id] == row && |rows| <= maxItems
    && forall other :: EnlargedAt(before, rows, at, retention, id, maxItems, other)
  }

  ghost predicate DepartsAt(before: Table, departed: map<Id, Fate>, after: map<Id, Fate>, id: Id) {
    id in after && id !in departed ==> id in before && after[id].row == before[id] && !after[id].Acknowledged?
  }

  /** Every new departure is of a row of `before`, as it was, and none is an acknowledgement. */
  ghost predicate Departs(before: Table, departed: map<Id, Fate>, after: map<Id, Fate>) {
    Grows(departed, after) && forall id :: DepartsAt(before, departed, after, id)
  }

  /** What becomes of one id in an insertion that evicts the rows `gone`: a row past its retention is pruned, an
      evicted one was within it and leaves a table of such rows, and any other departure is an earlier one. */
  ghost predicate FateByAdd(before: Table, departed: map<Id, Fate>, cutoff: real, at: real, gone: set<Id>,
                            after: map<Id, Fate>, id: Id)
  {
    if id in gone then
      && id in before && before[id].created >= cutoff && id in after
      && after[id].Evicted? && after[id].row == before[id]
      && Grows(after[id].full, Without(before, Expired(before, cutoff)))
    else if id in before && before[id].created < cutoff then
      id in after && after[id] == Pruned(before[id], at)
    else (id in after <==> id in departed) && (id in departed ==> after[id] == departed[id])
  }

  /** The departures of an insertion: pruned first, then evicted from what was left. */
  ghost predicate LeftByAdd(before: Table, departed: map<Id, Fate>, cutoff: real, at: real, gone: set<Id>,
                            after: map<Id, Fate>)
  {
    forall id :: FateByAdd(before, departed, cutoff, at, gone, after, id)
  }

  lemma LeavingByAdd(before: Table, departed: map<Id, Fate>, cutoff: real, at: real, live: Table,
                     middle: map<Id, Fate>, gone: set<Id>, after: map<Id, Fate>)
    requires live == Without(before, Expired(before, cutoff))
    requires middle == departed + PrunedAt(before, Expired(before, cutoff), at)
    requires Leaves(live, middle, gone, after)
    ensures LeftByAdd(before, departed, cutoff, at, gone, after)
    ensures before.Keys !! departed.Keys ==> Departs(before, departed, after)
  {
    forall id
      ensures FateByAdd(before, departed, cutoff, at, gone, after, id)
      ensures before.Keys !! departed.Keys ==> DepartsAt(before, departed, after, id)
      ensures before.Keys !! departed.Keys ==> KeptAt(departed, after, id)
    {
      assert LeavesAt(live, middle, gone, after, id);
    }
  }

  /** The row after one more failure, recorded when `attempts` were recorded and the clock read `now`. */
  function Rescheduled(row: Row, attempts: nat, now: real): Row {
    row.(attempts := attempts + 1, nextAttempt := now + Delay(attempts) as real)
  }

  lemma AddedFills(live: Table, rows: Table, gone: set<Id>, id: Id, row: Row, maxItems: int)
    requires Added(live, rows, gone, id, row, maxItems) && id !in live && gone != {}
    ensures |rows| == maxItems
  {
    assert live.Keys == (live.Keys - gone) + gone;
    assert rows.Keys == (live.Keys - gone) + {id};
    assert |live.Keys| == |live| && |rows.Keys| == |rows|;
  }

  /** What retention leaves of the table. */
  ghost predicate Unexpired(before: Table, cutoff: real, live: Table) {
    && (forall id :: id in live ==> id in before && live[id] == before[id] && live[id].created >= cutoff)
    && (forall id :: id in before && before[id].created >= cutoff ==> id in live)
  }

  lemma AddedFresh(before: Table, live: Table, rows: Table, gone: set<Id>, at: real, retention: real,
                   id: Id, row: Row, maxItems: int)
    requires Added(live, rows, gone, id, row, maxItems) && Unexpired(before, at - retention, live) && id !in before
    ensures Enlarged(before, rows, at, retention, id, row, maxItems) && Shrinks(before, rows, id)
  {
    if gone != {} {
      AddedFills(live, rows, gone, id, row, maxItems);
    }
    forall other
      ensures EnlargedAt(before, rows, at, retention, id, maxItems, other)
    {
      if other in before && before[other].created >= at - retention && other !in rows {
        assert other in live && other in gone;
        assert forall k :: k in rows && k != id ==> k in live.Keys - gone && rows[k] == live[k];
      }
    }
  }

  // ---------------------------------------------------------------- due rows

  function Due(rows: Table, now: real): set<Id> {
    set id | id in rows && rows[id].nextAttempt <= now
  }

  function Ids(items: seq<Item>): set<Id> {
    set i | 0 <= i < |items| :: items[i].id
  }

  lemma IdsAppend(items: seq<Item>, item: Item)
    ensures Ids(items + [item]) == Ids(items) + {item.id}
  {
    var longer := items + [item];
    assert longer[|items|] == item;
    assert forall i :: 0 <= i < |items| ==> longer[i] == items[i];
    forall id | id in Ids(items) ensures id in Ids(longer) {
      var i :| 0 <= i < |items| && items[i].id == id;
      assert longer[i].id == id;
    }
  }

  /** What the select statement may return: due rows, each once, oldest first, none left out for a newer
      one, and none left out at all below the limit. */
  ghost predicate Selection(rows: Table, now: real, limit: nat, items: seq<Item>) {
    && |items| <= limit
    && (forall i :: 0 <= i < |items| ==> items[i].id in Due(rows, now) && items[i].row == rows[items[i].id])
    && (forall i, j :: 0 <= i < j < |items| ==>
                         items[i].id != items[j].id && items[i].row.created <= items[j].row.created)
    && (|items| < limit ==> Due(rows, now) == Ids(items))
    && (forall i, id :: 0 <= i < |items| && id in Due(rows, now) - Ids(items) ==>
                          items[i].row.created <= rows[id].created)
  }

  /** The oldest due rows in order, and the due rows that are left. */
  ghost predicate Selected(rows: Table, now: real, items: seq<Item>, left: set<Id>) {
    && Ids(items) <= Due(rows, now) && left == Due(rows, now) - Ids(items)
    && (forall i :: 0 <= i < |items| ==> items[i].id in Due(rows, now) && items[i].row == rows[items[i].id])
    && (forall i, j :: 0 <= i < j < |items| ==>
                         items[i].id != items[j].id && items[i].row.created <= items[j].row.created)
    && (forall i, id :: 0 <= i < |items| && id in left ==> items[i].row.created <= rows[id].created)
  }

  lemma SelectedNext(rows: Table, now: real, items: seq<Item>, left: set<Id>, next: Id)
    requires Selected(rows, now, items, left) && left <= rows.Keys && Oldest(rows, left, next)
    ensures Selected(rows, now, items + [Item(next, rows[next])], left - {next})
  {
    IdsAppend(items, Item(next, rows[next]));
    forall i | 0 <= i < |items|
      ensures items[i].id != next
    {
      assert items[i].id in Ids(items);
    }
  }

  ghost predicate NoneNewerThan(items: seq<Item>, created: real) {
    forall i :: 0 <= i < |items| ==> items[i].row.created <= created
  }

  lemma SelectedAll(rows: Table, now: real, limit: nat, items: seq<Item>, left: set<Id>)
    requires Selected(rows, now, items, left) && |items| <= limit && (left == {} || |items| == limit)
    ensures Selection(rows, now, limit, items)
  {
    if left == {} {
      assert forall id :: id in Due(rows, now) ==> id in left || id in Ids(items);
    }
  }

  // ---------------------------------------------------------------- the store

  class DurableQueue {
    const maxItems: int
    const retention: real
    var rows: Table

    // Every id ever inserted, and for the ids whose row left, how it last left.
    ghost var inserted: set<Id>
    ghost var departed: map<Id, Fate>

    /** Conservation: every id ever inserted is queued or has left, and those that left undelivered were past
        their retention or the oldest of a full table. */
    ghost predicate Valid()
      reads `inserted, `rows, `departed
    {
      inserted == rows.Keys + departed.Keys && AllJustified(departed, maxItems, retention)
    }

    /** No id is both; this can fail only where a caller inserts an id again after its row left. */
    ghost predicate Exclusive()
      reads `rows, `departed
    {
      rows.Keys !! departed.Keys
    }

    /** Opens a store that may already hold rows, any number of them. */
    constructor (stored: Table, maxItems: int, retentionDays: int, now: real)
      ensures Valid() && Exclusive()
      ensures this.maxItems == maxItems && retention == (retentionDays * 86400) as real
      ensures rows == Without(stored, Expired(stored, now - retention))
      ensures inserted == stored.Keys && departed == PrunedAt(stored, Expired(stored, now - retention), now)
    {
      this.maxItems := maxItems;
      retention := (retentionDays * 86400) as real;
      rows := stored;
      inserted, departed := stored.Keys, map[];
      new;
      Prune(now);
    }

    method Count() returns (n: nat)
      ensures n == |rows|
    {
      n := |rows|;
    }

    method Prune(now: real)
      requires Valid()
      modifies `rows, `departed
      ensures Valid() && (old(Exclusive()) ==> Exclusive() && Grows(old(departed), departed))
      ensures rows == Without(old(rows), Expired(old(rows), now - retention))
      ensures forall id :: id in rows <==> id in old(rows) && old(rows)[id].created >= now - retention
      ensures departed == old(departed) + PrunedAt(old(rows), Expired(old(rows), now - retention), now)
    {
      var gone := Expired(rows, now - retention);
      PruningIsJustified(rows, departed, now, maxItems, retention);
      LeavingBalances(rows, departed, gone, departed + PrunedAt(rows, gone, now));
      departed := departed + PrunedAt(rows, gone, now);
      rows := Without(rows, gone);
    }

    /** Deletes one row of least creation time; ties are broken arbitrarily. */
    method EvictOldest() returns (ghost id: Id)
      requires |rows| > 0
      modifies `rows, `departed
      ensures Oldest(old(rows), old(rows).Keys, id) && rows == Without(old(rows), {id})
      ensures |rows| == |old(rows)| - 1
      ensures departed == old(departed)[id := Evicted(old(rows)[id], old(rows))]
    {
      OldestExists(rows, rows.Keys);
      var oldest :| Oldest(rows, rows.Keys, oldest);
      WithoutOne(rows, oldest);
      departed := departed[oldest := Evicted(rows[oldest], rows)];
      rows := Without(rows, {oldest});
      id := oldest;
    }

    /** The eviction loop of an insertion, for a capacity of at least one. */
    method EvictDown() returns (ghost gone: set<Id>)
      requires maxItems >= 1 && AllJustified(departed, maxItems, retention)
      modifies `rows, `departed
      ensures EvictionState(old(rows), old(departed), rows, departed, gone) && |rows| < maxItems
      ensures gone != {} ==> |rows| == maxItems - 1
      ensures AllJustified(departed, maxItems, retention)
    {
      gone := {};
      ThinnedNone(rows);
      var count := Count();
      while count >= maxItems
        invariant count == |rows| && EvictionState(old(rows), old(departed), rows, departed, gone)
        invariant gone != {} ==> count >= maxItems - 1
        invariant AllJustified(departed, maxItems, retention)
        decreases count
      {
        ghost var before, fates := rows, departed;
        ghost var e := EvictOldest();
        EvictionIsJustified(fates, e, before, maxItems, retention);
        EvictionNext(old(rows), old(departed), before, fates, gone, e, rows);
        gone := gone + {e};
        count := Count();
      }
    }

    /** Eviction down to the capacity. With a capacity below one the loop never ends and commits nothing. */
    method MakeRoom() returns (ended: bool, ghost gone: set<Id>)
      requires Valid()
      modifies `rows, `departed
      ensures Valid() && (old(Exclusive()) ==> Exclusive() && Grows(old(departed), departed))
      ensures ended <==> maxItems >= 1
      ensures MadeRoom(old(rows), rows, gone, ended, maxItems)
      ensures Leaves(old(rows), old(departed), gone, departed)
    {
      ghost var before, fates := rows, departed;
      ended, gone := maxItems >= 1, {};
      ThinnedNone(rows);
      if ended {
        gone := EvictDown();
        LeavingBalances(before, fates, gone, departed);
        LeftLeaves(before, fates, gone, departed);
      }
    }

    /** What happens before the insert statement: pruning, and eviction down to the capacity. */
    method Shrink(at: real) returns (ended: bool, ghost gone: set<Id>)
      requires Valid()
      modifies `rows, `departed
      ensures Valid() && (ended <==> maxItems >= 1)
      ensures old(Exclusive()) ==> Exclusive() && Departs(old(rows), old(departed), departed)
      ensures LeftByAdd(old(rows), old(departed), at - retention, at, gone, departed)
      ensures MadeRoom(Without(old(rows), Expired(old(rows), at - retention)), rows, gone, ended, maxItems)
    {
      ghost var before, fates := rows, departed;
      Prune(at);
      ghost var live, middle := rows, departed;
      ended, gone := MakeRoom();
      LeavingByAdd(before, fates, at - retention, at, live, middle, gone, departed);
    }

    /** The insert statement: an id already present is left alone. */
    method Insert(id: Id, row: Row)
      requires Valid()
      modifies this`rows, this`inserted
      ensures Valid() && (old(Exclusive()) && id !in old(inserted) ==> Exclusive())
      ensures rows == (if id in old(rows) then old(rows) else old(rows)[id := row])
      ensures inserted == old(inserted) + {id}
    {
      if id !in rows {
        rows := rows[id := row];
      }
      inserted := inserted + {id};
    }

    /** Inserts a row under `id`, after pruning and after evicting down to the capacity. An id that
        survives both keeps its old row. `gone` are the rows evicted for capacity. With a capacity below one
        the call never returns, and only the pruning is committed. */
    method Add(source: string, payload: Payload, id: Id, now: real, pruneNow: real, stamp: real)
      returns (ended: bool, ghost gone: set<Id>)
      requires Valid()
      modifies this
      ensures Valid() && (old(Exclusive()) && id !in old(inserted) ==> Exclusive())
      ensures old(Exclusive()) ==> Departs(old(rows), old(departed), departed)
      ensures ended <==> maxItems >= 1
      ensures inserted == if ended then old(inserted) + {id} else old(inserted)
      ensures LeftByAdd(old(rows), old(departed), pruneNow - retention, pruneNow, gone, departed)
      ensures var live := Without(old(rows), Expired(old(rows), pruneNow - retention));
              if ended then Added(live, rows, gone, id, Row(source, stamp, payload, 0, 0.0, now), maxItems)
              else rows == live && gone == {}
    {
      ended, gone := Shrink(pruneNow);
      if ended {
        ghost var room := rows;
        Insert(id, Row(source, stamp, payload, 0, 0.0, now));
        AddedToRoom(Without(old(rows), Expired(old(rows), pruneNow - retention)), room, gone, maxItems, id,
                    Row(source, stamp, payload, 0, 0.0, now), rows);
      }
    }

    /** An insertion under a new id, as the client makes it: what its caller relies on. */
    method AddFresh(source: string, payload: Payload, id: Id, now: real, pruneNow: real, stamp: real)
      returns (ended: bool)
      requires Valid() && Exclusive() && id !in inserted
      modifies this
      ensures Valid() && Exclusive() && (ended <==> maxItems >= 1)
      ensures inserted == if ended then old(inserted) + {id} else old(inserted)
      ensures Departs(old(rows), old(departed), departed)
      ensures var row := Row(source, stamp, payload, 0, 0.0, now);
              if ended
              then Enlarged(old(rows), rows, pruneNow, retention, id, row, maxItems)
              else rows == Without(old(rows), Expired(old(rows), pruneNow - retention))
      ensures Shrinks(old(rows), rows, id)
    {
      ghost var gone;
      ended, gone := Add(source, payload, id, now, pruneNow, stamp);
      if ended {
        ghost var live := Without(old(rows), Expired(old(rows), pruneNow - retention));
        AddedFresh(old(rows), live, rows, gone, pruneNow, retention, id, Row(source, stamp, payload, 0, 0.0, now),
                   maxItems);
      }
    }

    /** Up to `limit` rows whose time has come, oldest first; no such row is left out for a newer one, and none is
        left out while there is room. */
    method Ready(now: real, limit: nat) returns (items: seq<Item>)
      ensures Selection(rows, now, limit, items)
      ensures forall i :: 0 <= i < |items| ==> items[i].row.nextAttempt <= now
      ensures forall id :: id in rows && rows[id].nextAttempt <= now && id !in Ids(items) ==>
                             |items| == limit && NoneNewerThan(items, rows[id].created)
    {
      items := [];
      var left := Due(rows, now);
      while left != {} && |items| < limit
        invariant |items| <= limit && Selected(rows, now, items, left)
        decreases left
      {
        OldestExists(rows, left);
        var next :| Oldest(rows, left, next);
        SelectedNext(rows, now, items, left, next);
        items := items + [Item(next, rows[next])];
        left := left - {next};
      }
      SelectedAll(rows, now, limit, items, left);
    }

    method Ack(id: Id)
      requires Valid()
      modifies `rows, `departed
      ensures Valid() && (old(Exclusive()) ==> Exclusive() && Grows(old(departed), departed))
      ensures rows == Without(old(rows), {id})
      ensures departed == if id in old(rows) then old(departed)[id := Acknowledged(old(rows)[id])] else old(departed)
    {
      if id in rows {
        AcknowledgementIsJustified(departed, id, rows[id], maxItems, retention);
        departed := departed[id := Acknowledged(rows[id])];
      }
      rows := Without(rows, {id});
    }

    /** One more failure is recorded than `attempts`, and the row is due when exactly its delay has passed; nothing
        else changes. */
    method Retry(id: Id, attempts: nat, now: real)
      requires Valid()
      modifies this`rows
      ensures Valid() && (old(Exclusive()) ==> Exclusive())
      ensures rows == if id in old(rows)
                      then old(rows)[id := Rescheduled(old(rows)[id], attempts, now)]
                      else old(rows)
      ensures id in old(rows) ==>
                && rows[id].attempts == attempts + 1 && rows[id].nextAttempt == now + Delay(attempts) as real
                && rows[id].created == old(rows)[id].created && rows[id].observedAt == old(rows)[id].observedAt
                && rows[id].source == old(rows)[id].source && rows[id].payload == old(rows)[id].payload
    {
      if id in rows {
        rows := rows[id := rows[id].(attempts := attempts + 1, nextAttempt := now + Delay(attempts) as real)];
      }
    }
  }
}
