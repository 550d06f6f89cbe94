/** Deduplication of events (internal/events/broadcaster.go). */
module Dedup {

  /** One call of shouldProcess: the event, and what the clock says when its entry is looked up, when it is
      marked, and when a cleanup runs. */
  datatype Call = Call(id: string, asked: int, marked: int, cleaned: int)

  class Broadcaster {
    const ttl: int
    var recentEvents: map<string, int>

    ghost var history: map<string, int> // when each event was last accepted; never cleaned up
    ghost var clock: int

    /** What has been cleaned up had expired, and so makes no difference any more. */
    ghost predicate Valid()
      reads this
    {
      && (forall id :: id in recentEvents ==> id in history && recentEvents[id] == history[id])
      && (forall id :: id in history && id !in recentEvents ==> clock - history[id] >= ttl)
    }

    constructor (ttl: int, now: int)
      ensures Valid() && this.ttl == ttl && history == map[] && clock == now
    {
      this.ttl, recentEvents, history, clock := ttl, map[], map[], now;
    }

    /** Agrees with a history that is never cleaned up. */
    method ShouldProcess(c: Call) returns (accepted: bool)
      requires Valid() && clock <= c.asked <= c.marked <= c.cleaned
      modifies this
      ensures Valid() && clock == c.cleaned
      ensures accepted <==> !(c.id in old(history) && c.asked - old(history)[c.id] < ttl)
      ensures history == if accepted then old(history)[c.id := c.marked] else old(history)
    {
      if c.id in recentEvents {
        if c.asked - recentEvents[c.id] < ttl {
          clock := c.cleaned;
          return false;
        }
        recentEvents := recentEvents - {c.id};
      }
      recentEvents := recentEvents[c.id := c.marked];
      history := history[c.id := c.marked];
      clock := c.cleaned;
      if |recentEvents| > 0 && |recentEvents| % 100 == 0 {
        CleanupOldEvents(c.cleaned);
      }
      return true;
    }

    /** Removes what is more than one TTL old, and nothing else. */
    method CleanupOldEvents(now: int)
      requires Valid() && now == clock
      modifies this`recentEvents
      ensures Valid() && Cleaned(old(recentEvents), recentEvents, {}, now, ttl)
    {
      var todo := recentEvents.Keys;
      while todo != {}
        invariant Valid() && todo <= recentEvents.Keys
        invariant Cleaned(old(recentEvents), recentEvents, todo, now, ttl)
        decreases todo
      {
        var id :| id in todo;
        todo := todo - {id};
        if now - recentEvents[id] > ttl {
          recentEvents := recentEvents - {id};
        }
      }
    }
  }

  /** Of the entries outside todo exactly those are left that are at most one TTL old. */
  ghost predicate Cleaned(before: map<string, int>, after: map<string, int>, todo: set<string>, now: int, ttl: int) {
    && (forall id :: id in after ==> id in before && after[id] == before[id])
    && (forall id :: id in before ==> (id in after <==> id in todo || now - before[id] <= ttl))
  }

  /** The clock never runs backwards. */
  predicate Monotone(calls: seq<Call>) {
    && (forall i :: 0 <= i < |calls| ==> calls[i].asked <= calls[i].marked <= calls[i].cleaned)
    && (forall i, j :: 0 <= i && j == i + 1 < |calls| ==> calls[i].cleaned <= calls[j].asked)
  }

  /** The decisions that the rule itself prescribes: call n is accepted if and only if no earlier accepted
      call for the same event is less than one TTL old. */
  ghost predicate Follows(ttl: int, calls: seq<Call>, accepted: seq<bool>) {
    && |accepted| == |calls|
    && (forall n :: 0 <= n < |calls| ==> (accepted[n] <==> !Blocked(ttl, calls, accepted, n)))
  }

  ghost predicate Blocked(ttl: int, calls: seq<Call>, accepted: seq<bool>, n: nat)
    requires n < |calls| && n <= |accepted|
  {
    exists m :: 0 <= m < n && accepted[m] && calls[m].id == calls[n].id && calls[n].asked - calls[m].marked < ttl
  }

  /** The history after some calls: for every accepted event the latest of its acceptances. */
  ghost predicate IsHistory(calls: seq<Call>, accepted: seq<bool>, n: nat, history: map<string, int>)
    requires n <= |calls| && n <= |accepted|
  {
    && (forall id :: id in history ==>
          exists m :: 0 <= m < n && accepted[m] && calls[m].id == id && calls[m].marked == history[id])
    && (forall m :: 0 <= m < n && accepted[m] ==> calls[m].id in history && calls[m].marked <= history[calls[m].id])
  }

  /** Every sequence of calls, cleaned up in between or not, is decided by the rule. */
  method ProcessAll(ttl: int, calls: seq<Call>) returns (accepted: seq<bool>)
    requires Monotone(calls)
    ensures Follows(ttl, calls, accepted)
  {
    accepted := [];
    var b := new Broadcaster(ttl, if calls == [] then 0 else calls[0].asked);
    for n := 0 to |calls|
      invariant fresh(b) && b.Valid() && b.ttl == ttl && |accepted| == n
      invariant n > 0 ==> b.clock == calls[n - 1].cleaned
      invariant n == 0 && calls != [] ==> b.clock == calls[0].asked
      invariant IsHistory(calls, accepted, n, b.history)
      invariant forall k :: 0 <= k < n ==> (accepted[k] <==> !Blocked(ttl, calls, accepted, k))
    {
      ghost var before, history := accepted, b.history;
      LatestBefore(calls, before, n, history, b.clock);
      var yes := b.ShouldProcess(calls[n]);
      accepted := accepted + [yes];
      Decided(ttl, calls, before, accepted, n, history, yes);
      HistoryMore(calls, before, accepted, n, history, b.history, yes);
    }
  }

  /** No acceptance lies in the future. */
  lemma LatestBefore(calls: seq<Call>, accepted: seq<bool>, n: nat, history: map<string, int>, now: int)
    requires n <= |calls| && n <= |accepted| && IsHistory(calls, accepted, n, history) && Monotone(calls)
    requires n > 0 ==> now == calls[n - 1].cleaned
    ensures forall id :: id in history ==> history[id] <= now
  {
    forall id | id in history ensures history[id] <= now {
      var m :| 0 <= m < n && accepted[m] && calls[m].id == id && calls[m].marked == history[id];
      ClockGrows(calls, m, n - 1);
    }
  }

  lemma {:induction false} ClockGrows(calls: seq<Call>, i: nat, j: nat)
    requires Monotone(calls) && i <= j < |calls|
    ensures calls[i].cleaned <= calls[j].cleaned
    decreases j
  {
    if i < j {
      ClockGrows(calls, i, j - 1);
    }
  }

  /** The latest acceptance alone decides. */
  lemma BlockedByHistory(ttl: int, calls: seq<Call>, accepted: seq<bool>, n: nat, history: map<string, int>)
    requires n < |calls| && n <= |accepted| && IsHistory(calls, accepted, n, history)
    ensures var c := calls[n]; Blocked(ttl, calls, accepted, n) <==> c.id in history && c.asked - history[c.id] < ttl
  {
    var c := calls[n];
    if c.id in history && c.asked - history[c.id] < ttl {
      var m :| 0 <= m < n && accepted[m] && calls[m].id == c.id && calls[m].marked == history[c.id];
    }
    if Blocked(ttl, calls, accepted, n) {
      var m :| 0 <= m < n && accepted[m] && calls[m].id == c.id && c.asked - calls[m].marked < ttl;
      assert calls[m].marked <= history[c.id];
    }
  }

  lemma HistoryMore(calls: seq<Call>, before: seq<bool>, accepted: seq<bool>, n: nat, history: map<string, int>,
                    history': map<string, int>, yes: bool)
    requires n < |calls| && |before| == n && IsHistory(calls, before, n, history) && accepted == before + [yes]
    requires history' == if yes then history[calls[n].id := calls[n].marked] else history
    requires forall id :: id in history ==> history[id] <= calls[n].marked
    ensures IsHistory(calls, accepted, n + 1, history')
  {
    forall id | id in history'
      ensures exists m :: 0 <= m < n + 1 && accepted[m] && calls[m].id == id && calls[m].marked == history'[id]
    {
      if id == calls[n].id && yes {
        assert accepted[n] && calls[n].marked == history'[id];
      } else {
        var m :| 0 <= m < n && before[m] && calls[m].id == id && calls[m].marked == history[id];
        assert accepted[m];
      }
    }
    forall m | 0 <= m < n + 1 && accepted[m]
      ensures calls[m].id in history' && calls[m].marked <= history'[calls[m].id]
    {
      if m < n {
        assert before[m];
      }
    }
  }

  lemma Decided(ttl: int, calls: seq<Call>, before: seq<bool>, accepted: seq<bool>, n: nat, history: map<string, int>,
                yes: bool)
    requires n < |calls| && |before| == n && IsHistory(calls, before, n, history) && accepted == before + [yes]
    requires yes <==> !(calls[n].id in history && calls[n].asked - history[calls[n].id] < ttl)
    requires forall k :: 0 <= k < n ==> (before[k] <==> !Blocked(ttl, calls, before, k))
    ensures forall k :: 0 <= k < n + 1 ==> (accepted[k] <==> !Blocked(ttl, calls, accepted, k))
  {
    BlockedByHistory(ttl, calls, before, n, history);
    assert accepted[..|before|] == before;
    forall k | 0 <= k < n + 1 ensures accepted[k] <==> !Blocked(ttl, calls, accepted, k) {
      SameBlocked(ttl, calls, before, accepted, k);
    }
  }

  lemma SameBlocked(ttl: int, calls: seq<Call>, before: seq<bool>, accepted: seq<bool>, k: nat)
    requires k < |calls| && k <= |before| <= |accepted| && before == accepted[..|before|]
    ensures Blocked(ttl, calls, before, k) <==> Blocked(ttl, calls, accepted, k)
  {
    if m :| 0 <= m < k && before[m] && calls[m].id == calls[k].id && calls[k].asked - calls[m].marked < ttl {
      assert accepted[m];
    }
    if m :| 0 <= m < k && accepted[m] && calls[m].id == calls[k].id && calls[k].asked - calls[m].marked < ttl {
      assert before[m];
    }
  }

  /** The rule leaves no choice. */
  lemma {:induction false} FollowsIsUnique(ttl: int, calls: seq<Call>, a: seq<bool>, b: seq<bool>, n: nat)
    requires Follows(ttl, calls, a) && Follows(ttl, calls, b) && n <= |calls|
    ensures a[..n] == b[..n]
    decreases n
  {
    if n > 0 {
      var k := n - 1;
      FollowsIsUnique(ttl, calls, a, b, k);
      assert Blocked(ttl, calls, a, k) <==> Blocked(ttl, calls, b, k) by {
        assert forall m :: 0 <= m < k ==> a[m] == a[..k][m] && b[m] == b[..k][m];
      }
      assert a[..n] == a[..k] + [a[k]] && b[..n] == b[..k] + [b[k]];
    }
  }
}
