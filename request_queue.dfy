/**
 * The request queue: a wrapper around a search server that counts calls on
 * a minute clock of 1440 minutes a day and keeps the searches that found
 * nothing, forgetting at most one old entry per call.
 */
module Requests {
  import opened Documents
  import opened Server

  /** Minutes in a day; the clock wraps after this many calls. */
  const MinutesInDay: nat := 1440

  /** A kept search: its (empty) result, the query text and the day it was made. */
  datatype QueryResult = QueryResult(matchedDocuments: seq<Document>, request: string, day: nat)

  /** The minute after `k` calls: zero before the first call, then 1 to 1440 over and over. */
  function TimeAfter(k: nat): (t: nat)
    ensures k == 0 <==> t == 0
    ensures t <= MinutesInDay
  {
    if k == 0 then 0 else (k - 1) % MinutesInDay + 1
  }

  /** The day after `k` calls: day 1 until the 1441st call, then one more every 1440 calls. */
  function DayAfter(k: nat): (d: nat)
    ensures d >= 1
  {
    if k == 0 then 1 else 1 + (k - 1) / MinutesInDay
  }

  /** One call advances the clock by a minute, starting a new day after minute 1440. */
  lemma ClockStep(k: nat)
    ensures TimeAfter(k) + 1 == MinutesInDay + 1 ==>
      TimeAfter(k + 1) == 1 && DayAfter(k + 1) == DayAfter(k) + 1
    ensures TimeAfter(k) + 1 != MinutesInDay + 1 ==>
      TimeAfter(k + 1) == TimeAfter(k) + 1 && DayAfter(k + 1) == DayAfter(k)
  {
    if k > 0 {
      var q, r := (k - 1) / MinutesInDay, (k - 1) % MinutesInDay;
      assert k - 1 == q * MinutesInDay + r;
      if r + 1 == MinutesInDay {
        assert k == (q + 1) * MinutesInDay;
        assert k / MinutesInDay == q + 1 && k % MinutesInDay == 0;
      } else {
        assert k == q * MinutesInDay + (r + 1);
        assert k / MinutesInDay == q && k % MinutesInDay == r + 1;
      }
    }
  }

  /** The first day ends with the 1440th call: the 1441st call is the first of day 2. */
  lemma SecondDayStartsAtCall1441()
    ensures DayAfter(1440) == 1 && TimeAfter(1440) == 1440
    ensures DayAfter(1441) == 2 && TimeAfter(1441) == 1
  {
  }

  /** The kept entries, front to back, never go back in days and none is after `day`. */
  predicate DaysOrdered(requests: seq<QueryResult>, day: nat) {
    && (forall i, j | 0 <= i < j < |requests| :: requests[i].day <= requests[j].day)
    && (forall i | 0 <= i < |requests| :: requests[i].day <= day)
  }

  /** The front entry is dropped when it is from an earlier day; an empty queue is left alone. */
  function Evict(requests: seq<QueryResult>, day: nat): (kept: seq<QueryResult>)
    ensures kept == requests || (requests != [] && kept == requests[1..])
    ensures requests != [] && requests[0].day < day <==> |kept| == |requests| - 1
  {
    if requests != [] && requests[0].day < day then requests[1..] else requests
  }

  /** The outcome of an operation that may read outside its data. */
  datatype Step<T> = Defined(value: T) | Undefined

  /**
   * The eviction test as written: the front entry's day is read before the
   * queue is tested for emptiness, so on an empty queue the read itself is
   * undefined; on a non-empty queue it agrees with Evict.
   */
  function EvictAsWritten(requests: seq<QueryResult>, day: nat): (r: Step<seq<QueryResult>>)
    ensures r.Undefined? <==> requests == []
    ensures r.Defined? ==> r.value == Evict(requests, day)
  {
    if requests == [] then Undefined
    else if requests[0].day < day then Defined(requests[1..])
    else Defined(requests)
  }

  /** Dropping the front entry, on a day no earlier than before, keeps the days in order. */
  lemma EvictKeepsOrder(requests: seq<QueryResult>, oldDay: nat, day: nat)
    requires DaysOrdered(requests, oldDay) && oldDay <= day
    ensures DaysOrdered(Evict(requests, day), day)
  {
    var kept := Evict(requests, day);
    if kept != requests {
      forall i, j | 0 <= i < j < |kept|
        ensures kept[i].day <= kept[j].day
      {
        assert kept[i] == requests[i + 1] && kept[j] == requests[j + 1];
      }
      forall i | 0 <= i < |kept|
        ensures kept[i].day <= day
      {
        assert kept[i] == requests[i + 1];
      }
    }
  }

  /** An entry of the current day can go at the back. */
  lemma PushKeepsOrder(requests: seq<QueryResult>, day: nat, entry: QueryResult)
    requires DaysOrdered(requests, day) && entry.day == day
    ensures DaysOrdered(requests + [entry], day)
  {
  }

  class RequestQueue {
    /** The server the searches go to; the queue never changes it. */
    const server: SearchServer
    /** The searches that found nothing, oldest first. */
    var requests: seq<QueryResult>
    /** Minute of the current day. */
    var time: nat
    /** Current day, counted from 1. */
    var dayCounter: nat
    /** The number of searches made through this queue. */
    ghost var calls: nat

    /**
     * The server is valid and the queue's own state is consistent.
     */
    ghost predicate Valid()
      reads this, server
    {
      server.Valid() && QueueState()
    }

    /**
     * The clock agrees with the number of calls, the kept entries are in day
     * order and none is newer than the current day, and there are no more
     * of them than calls.
     */
    ghost predicate QueueState()
      reads this
    {
      && time == TimeAfter(calls)
      && dayCounter == DayAfter(calls)
      && DaysOrdered(requests, dayCounter)
      && |requests| <= calls
    }

    constructor (server: SearchServer)
      requires server.Valid()
      ensures Valid()
      ensures this.server == server && requests == [] && calls == 0
      ensures time == 0 && dayCounter == 1
    {
      this.server := server;
      requests := [];
      time := 0;
      dayCounter := 1;
      calls := 0;
    }

    /**
     * A search through the queue: the clock advances a minute, the front
     * entry is dropped when it is from an earlier day, the server's result
     * is returned, and an empty result is kept with the current day.
     */
    method AddFindRequest(rawQuery: string, documentPredicate: DocumentPredicate)
      returns (r: Result<seq<Document>>)
      requires Valid()
      modifies this
      ensures Valid()
      ensures calls == old(calls) + 1
      ensures 1 <= time <= MinutesInDay
      ensures server.IsSearchOutcome(rawQuery, documentPredicate, r)
      ensures unchanged(server)
      ensures requests == Evict(old(requests), dayCounter) +
        (if r.Ok? && r.value == [] then [QueryResult([], rawQuery, dayCounter)] else [])
    {
      NextMinute();
      r := server.FindTopDocuments(rawQuery, documentPredicate);
      KeepIfEmpty(rawQuery, r);
    }

    /** The clock part of a call: one more minute, and the front entry dropped if it is old. */
    method NextMinute()
      requires QueueState()
      modifies this
      ensures time == TimeAfter(calls) && dayCounter == DayAfter(calls)
      ensures calls == old(calls) + 1 && 1 <= time <= MinutesInDay
      ensures requests == Evict(old(requests), dayCounter)
      ensures DaysOrdered(requests, dayCounter) && |requests| < calls
    {
      ClockStep(calls);
      time := time + 1;
      if time == MinutesInDay + 1 {
        time := 1;
        dayCounter := dayCounter + 1;
      }
      calls := calls + 1;

      EvictKeepsOrder(requests, old(dayCounter), dayCounter);
      if requests != [] && requests[0].day < dayCounter {
        requests := requests[1..];
      }
    }

    /** The recording part of a call: an empty result is appended with the current day. */
    method KeepIfEmpty(rawQuery: string, r: Result<seq<Document>>)
      requires time == TimeAfter(calls) && dayCounter == DayAfter(calls)
      requires DaysOrdered(requests, dayCounter) && |requests| < calls
      modifies this
      ensures QueueState()
      ensures time == old(time) && dayCounter == old(dayCounter) && calls == old(calls)
      ensures requests == old(requests) +
        (if r.Ok? && r.value == [] then [QueryResult([], rawQuery, dayCounter)] else [])
    {
      if r.Ok? && r.value == [] {
        PushKeepsOrder(requests, dayCounter, QueryResult(r.value, rawQuery, dayCounter));
        requests := requests + [QueryResult(r.value, rawQuery, dayCounter)];
      }
    }

    /** The search with the default filter: documents of the given status, Actual unless given. */
    method AddFindRequestByStatus(rawQuery: string, status: DocumentStatus := Actual)
      returns (r: Result<seq<Document>>)
      requires Valid()
      modifies this
      ensures Valid()
      ensures calls == old(calls) + 1
      ensures server.IsSearchOutcome(rawQuery, StatusIs(status), r)
      ensures requests == Evict(old(requests), dayCounter) +
        (if r.Ok? && r.value == [] then [QueryResult([], rawQuery, dayCounter)] else [])
    {
      r := AddFindRequest(rawQuery, StatusIs(status));
    }

    /**
     * A queue that has not served a search yet holds no entries, so the
     * first search through it reads the front of an empty queue.
     */
    lemma FirstRequestReadsEmptyFront()
      requires Valid() && calls == 0
      ensures EvictAsWritten(requests, DayAfter(calls + 1)).Undefined?
    {
    }

    /** The number of kept searches that found nothing; never more than the calls made. */
    function GetNoResultRequests(): (n: nat)
      reads this, server
      requires Valid()
      ensures n == |requests|
      ensures n <= calls
    {
      |requests|
    }
  }
}
