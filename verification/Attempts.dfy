/** Sliding windows over time stamps: the counting specification that both limiters must agree with, what a
    pruned deque keeps of it, and what the reported waiting time is worth. */
module Attempts {

  /** The time stamps later than `cutoff`, in order. */
  function Live(times: seq<real>, cutoff: real): (live: seq<real>)
    ensures |live| <= |times|
  {
    if times == [] then []
    else
      var rest := Live(times[1..], cutoff);
      if times[0] > cutoff then [times[0]] + rest else rest
  }

  /** What is left when expired stamps are popped from the left until the first is not expired. */
  function Popped(times: seq<real>, cutoff: real): seq<real> {
    if times != [] && times[0] <= cutoff then Popped(times[1..], cutoff) else times
  }

  ghost predicate Sorted(times: seq<real>) {
    forall i, j :: 0 <= i < j < |times| ==> times[i] <= times[j]
  }

  /** `kept` is `all` without some leading stamps, none later than `cutoff`. */
  ghost predicate Remains(all: seq<real>, kept: seq<real>, cutoff: real) {
    && |kept| <= |all| && kept == all[|all| - |kept|..]
    && forall i :: 0 <= i < |all| - |kept| ==> all[i] <= cutoff
  }

  lemma {:induction false} LiveFromSplit(all: seq<real>, cutoff: real, n: nat)
    requires n <= |all| && (forall i :: 0 <= i < n ==> all[i] <= cutoff)
    requires forall i :: n <= i < |all| ==> all[i] > cutoff
    ensures Live(all, cutoff) == all[n..]
  {
    if all != [] {
      LiveFromSplit(all[1..], cutoff, if n == 0 then 0 else n - 1);
    }
  }

  /** Popping what has expired from what remains of a sorted log leaves exactly the log's live stamps. */
  lemma {:induction false} PoppedIsLive(all: seq<real>, kept: seq<real>, before: real, cutoff: real)
    requires Sorted(all) && Remains(all, kept, before) && before <= cutoff
    ensures Popped(kept, cutoff) == Live(all, cutoff) && Remains(all, Popped(kept, cutoff), cutoff)
  {
    if kept != [] && kept[0] <= cutoff {
      assert kept[1..] == all[|all| - |kept[1..]|..];
      PoppedIsLive(all, kept[1..], cutoff, cutoff);
    } else {
      LiveFromSplit(all, cutoff, |all| - |kept|);
    }
  }

  /** The same for a log that may be empty. */
  lemma PoppedIsLiveOrEmpty(all: seq<real>, kept: seq<real>, before: real, cutoff: real)
    requires Sorted(all) && Remains(all, kept, before) && (all == [] || before <= cutoff)
    ensures Popped(kept, cutoff) == Live(all, cutoff) && Remains(all, Popped(kept, cutoff), cutoff)
  {
    if all != [] {
      PoppedIsLive(all, kept, before, cutoff);
    }
  }

  /** What a call does to the deque of its key. */
  function Checked(held: seq<real>, limit: int, window: real, now: real): seq<real> {
    var live := Popped(held, now - window);
    if |live| < limit then live + [now] else live
  }

  /** The naive rule: admitted when fewer than `limit` admissions are later than a window ago. */
  function Counted(all: seq<real>, limit: int, window: real, now: real): seq<real> {
    if |Live(all, now - window)| < limit then all + [now] else all
  }

  lemma RemainsAppend(all: seq<real>, kept: seq<real>, cutoff: real, now: real)
    requires Remains(all, kept, cutoff)
    ensures Remains(all + [now], kept + [now], cutoff)
  {
  }

  lemma CheckedRemains(all: seq<real>, held: seq<real>, before: real, limit: int, window: real, now: real)
    requires Sorted(all) && Remains(all, held, before) && (all == [] || before <= now - window)
    ensures Popped(held, now - window) == Live(all, now - window)
    ensures Remains(Counted(all, limit, window, now), Checked(held, limit, window, now), now - window)
  {
    PoppedIsLiveOrEmpty(all, held, before, now - window);
    RemainsAppend(all, Popped(held, now - window), now - window, now);
  }

  /** In a sorted log, fewer than `limit` stamps are live exactly when the `limit`-th last has expired. */
  lemma {:induction false} FewerThan(times: seq<real>, cutoff: real, limit: nat)
    requires Sorted(times) && 1 <= limit <= |times|
    ensures |Live(times, cutoff)| < limit <==> times[|times| - limit] <= cutoff
  {
    if times[0] > cutoff {
      LiveFromSplit(times, cutoff, 0);
    } else if limit < |times| {
      FewerThan(times[1..], cutoff, limit);
    }
  }

  lemma RemainsLonger(all: seq<real>, kept: seq<real>, before: real, after: real)
    requires Remains(all, kept, before) && (before <= after || all == [])
    ensures Remains(all, kept, after)
  {
  }

  // ---------------------------------------------------------------- the reported wait

  /** Conversion to an integer, towards zero. */
  function Truncate(x: real): int {
    if x >= 0.0 then x.Floor else -((-x).Floor)
  }

  function RetryAfter(window: real, now: real, oldest: real): int {
    var wait := Truncate(window - (now - oldest));
    if wait < 1 then 1 else wait
  }

  /** The wait is at least a second and less than a second short of the time until the oldest stamp expires. */
  lemma RetryAfterBounds(window: real, now: real, oldest: real)
    requires oldest > now - window
    ensures RetryAfter(window, now, oldest) >= 1
    ensures 0.0 < window - (now - oldest) < RetryAfter(window, now, oldest) as real + 1.0
    ensures RetryAfter(window, now, oldest) == 1 || RetryAfter(window, now, oldest) as real <= window - (now - oldest)
  {
  }

  /** What a caller sees of a refusal that is safe to wait out: the oldest live stamp expires within a second,
      and with it all that must; or it expires after a whole number of seconds, together with all that must. */
  predicate WaitIsExact(live: seq<real>, window: real, now: real, limit: nat)
    requires 1 <= limit <= |live|
  {
    var left := window - (now - live[0]);
    if left <= 1.0 then window - (now - live[|live| - limit]) <= 1.0
    else left == left.Floor as real && live[|live| - limit] == live[0]
  }

  /** Waiting as told, with no further attempt, lets the next one through exactly under that condition; with no
      more live stamps than the limit, exactly when the time left is at most a second or a whole number of
      seconds, and in any case after one second more than told. */
  lemma WaitSuffices(live: seq<real>, window: real, now: real, limit: nat)
    requires Sorted(live) && 1 <= limit <= |live| && live[0] > now - window
    ensures var wait := RetryAfter(window, now, live[0]) as real;
            |Live(live, now + wait - window)| < limit <==> WaitIsExact(live, window, now, limit)
    ensures |live| == limit ==>
              var left := window - (now - live[0]);
              WaitIsExact(live, window, now, limit) <==> left <= 1.0 || left == left.Floor as real
    ensures |live| == limit ==>
              |Live(live, now + RetryAfter(window, now, live[0]) as real + 1.0 - window)| < limit
  {
    var wait := RetryAfter(window, now, live[0]) as real;
    FewerThan(live, now + wait - window, limit);
    FewerThan(live, now + wait + 1.0 - window, limit);
    RetryAfterBounds(window, now, live[0]);
  }

  lemma {:induction false} LiveInOrder(times: seq<real>, cutoff: real)
    requires Sorted(times)
    ensures Sorted(Live(times, cutoff)) && forall x :: x in Live(times, cutoff) ==> x in times && x > cutoff
  {
    if times != [] {
      LiveInOrder(times[1..], cutoff);
      forall x | x in times[1..]
        ensures times[0] <= x
      {
        var i :| 1 <= i < |times| && times[i] == x;
      }
    }
  }

  lemma {:induction false} LiveTwice(times: seq<real>, before: real, after: real)
    requires before <= after
    ensures Live(Live(times, before), after) == Live(times, after)
  {
    if times != [] {
      LiveTwice(times[1..], before, after);
      if times[0] > before {
        assert ([times[0]] + Live(times[1..], before))[1..] == Live(times[1..], before);
      }
    }
  }

  /** The advice can be too short: with one attempt and 1.5 seconds to go, it says one second. */
  lemma WaitCanBeShort()
    ensures RetryAfter(60.0, 58.5, 0.0) == 1 && |Live([0.0], 58.5 + 1.0 - 60.0)| == 1
  {
    LiveFromSplit([0.0], -0.5, 0);
  }

  // ---------------------------------------------------------------- the verdict

  datatype Verdict =
    | Pass
    | Refused(retryAfter: int)   // HTTP 429
    | EmptyDeque                 // IndexError: there is no oldest attempt to report on

  /** The decision on the pruned attempts of a key. */
  function Judge(attempts: seq<real>, limit: int, window: real, now: real): Verdict {
    if |attempts| < limit then Pass
    else if attempts == [] then EmptyDeque
    else Refused(RetryAfter(window, now, attempts[0]))
  }

  function LaterAt(times: seq<real>, cutoff: real): set<int> {
    set i | 0 <= i < |times| && times[i] > cutoff
  }

  /** How many of the stamps are later than `cutoff`. */
  function CountLater(times: seq<real>, cutoff: real): nat {
    |LaterAt(times, cutoff)|
  }

  /** Moving all indices up by one. */
  lemma {:induction false} SameSize(a: set<int>, b: set<int>)
    requires (forall i :: i in a ==> i + 1 in b) && (forall j :: j in b ==> j - 1 in a)
    ensures |a| == |b|
    decreases |a|
  {
    if a == {} {
      assert forall j :: j !in b;
      assert b == {};
    } else {
      assert (forall i: int :: i !in a) ==> a == {};
      var i :| i in a;
      SameSize(a - {i}, b - {i + 1});
    }
  }

  lemma CountLaterNext(times: seq<real>, cutoff: real)
    requires times != []
    ensures CountLater(times, cutoff) == CountLater(times[1..], cutoff) + if times[0] > cutoff then 1 else 0
  {
    var rest, all := LaterAt(times[1..], cutoff), LaterAt(times, cutoff);
    forall i | i in rest
      ensures i + 1 in all - {0}
    {
      assert times[1..][i] == times[i + 1];
    }
    forall j | j in all - {0}
      ensures j - 1 in rest
    {
      assert times[1..][j - 1] == times[j];
    }
    SameSize(rest, all - {0});
  }

  lemma {:induction false} LiveCounts(times: seq<real>, cutoff: real)
    ensures |Live(times, cutoff)| == CountLater(times, cutoff)
  {
    if times != [] {
      LiveCounts(times[1..], cutoff);
      CountLaterNext(times, cutoff);
    }
  }

  /** Stamp `i` is the first one later than `cutoff`. */
  predicate IsFirstLater(times: seq<real>, cutoff: real, i: nat) {
    i < |times| && times[i] > cutoff && forall j :: 0 <= j < i ==> times[j] <= cutoff
  }

  lemma {:induction false} LiveStarts(times: seq<real>, cutoff: real) returns (i: nat)
    requires Live(times, cutoff) != []
    ensures IsFirstLater(times, cutoff, i) && Live(times, cutoff)[0] == times[i]
  {
    if times[0] > cutoff {
      i := 0;
    } else {
      var k := LiveStarts(times[1..], cutoff);
      i := k + 1;
    }
  }

  /** Stamp `i` is the first live one, and the wait is at least a second, and less than a second short of the time
      until it expires. */
  predicate FitsAt(times: seq<real>, window: real, now: real, wait: int, i: nat) {
    && IsFirstLater(times, now - window, i)
    && var left := window - (now - times[i]);
    && wait >= 1 && 0.0 < left < wait as real + 1.0 && (wait == 1 || wait as real <= left)
  }

  /** The right verdict on a log: a pass with fewer than `limit` stamps later than a window ago; otherwise a
      refusal, with a wait of at least a second, and less than a second short of the time until the first of them
      expires, or an error if there is none. */
  ghost predicate Fair(times: seq<real>, limit: int, window: real, now: real, verdict: Verdict) {
    match verdict
    case Pass => CountLater(times, now - window) < limit
    case EmptyDeque => limit <= 0 == CountLater(times, now - window)
    case Refused(wait) =>
      && CountLater(times, now - window) >= limit
      && exists i: nat :: FitsAt(times, window, now, wait, i)
  }

  /** The decision on the live stamps is the right verdict on the log. */
  lemma JudgeIsFair(times: seq<real>, limit: int, window: real, now: real)
    ensures Fair(times, limit, window, now, Judge(Live(times, now - window), limit, window, now))
  {
    var cutoff := now - window;
    LiveCounts(times, cutoff);
    if |Live(times, cutoff)| >= limit && Live(times, cutoff) != [] {
      var i := LiveStarts(times, cutoff);
      RetryAfterBounds(window, now, times[i]);
      assert FitsAt(times, window, now, RetryAfter(window, now, times[i]), i);
    }
  }

  // ---------------------------------------------------------------- the deques

  /** Client addresses and rate-limit keys are compared only for equality. */
  type Key = int

  class Deque {
    var items: seq<real>

    constructor ()
      ensures items == []
    {
      items := [];
    }

    method PopLeft()
      requires items != []
      modifies this
      ensures items == old(items)[1..]
    {
      items := items[1..];
    }

    method Append(x: real)
      modifies this
      ensures items == old(items) + [x]
    {
      items := items + [x];
    }

    /** The pruning loop of both limiters. */
    method PopThrough(cutoff: real)
      modifies this
      ensures items == Popped(old(items), cutoff)
    {
      while items != [] && items[0] <= cutoff
        invariant Popped(items, cutoff) == Popped(old(items), cutoff)
        decreases |items|
      {
        PopLeft();
      }
    }
  }

  /** The limiters' `defaultdict(deque)`: one deque per key, shared by whoever reads it. */
  class DequeMap {
    var deques: map<Key, Deque>

    /** Different keys have different deques. */
    ghost predicate Valid()
      reads this
    {
      forall k, l :: k in deques && l in deques && k != l ==> deques[k] != deques[l]
    }

    /** What a key's deque holds; a key without a deque counts as holding nothing. */
    ghost function Held(key: Key): seq<real>
      reads this, deques.Values
    {
      if key in deques then deques[key].items else []
    }

    constructor ()
      ensures Valid() && deques == map[]
    {
      deques := map[];
    }

    /** Reading a key without a deque gives it an empty one. */
    method Fetch(key: Key) returns (d: Deque)
      requires Valid()
      modifies this
      ensures Valid() && key in deques && d == deques[key] && d.items == old(Held(key))
      ensures deques == if key in old(deques) then old(deques) else old(deques)[key := d]
      ensures key !in old(deques) ==> fresh(d)
    {
      if key !in deques {
        var empty := new Deque();
        deques := deques[key := empty];
      }
      d := deques[key];
    }

    method Remove(key: Key)
      requires Valid()
      modifies this
      ensures Valid() && deques == old(deques) - {key}
    {
      deques := deques - {key};
    }
  }
}
