/** Whole runs of the connection table: what holds in every reachable table, when the cleanup
    drops a connection, and what happens to a connection that stays silent. */
module Watchdog {
  import opened Bytes
  import opened Connections

  /** An event and the clock when it is handled. */
  datatype Timed = Timed(event: Event, now: nat)

  type Trace = seq<Timed>

  /** Hosts have nonzero addresses and the clock is past zero. */
  ghost predicate Proper(es: Trace) {
    forall i :: 0 <= i < |es| ==> FromHost(es[i].event) && es[i].now > 0
  }

  function RunFrom(t: Table, es: Trace): (r: Table)
    ensures |r| == |t|
    decreases |es|
  {
    if es == [] then t
    else Step(RunFrom(t, es[..|es| - 1]), es[|es| - 1].event, es[|es| - 1].now)
  }

  /** In every table that a server with n connections reaches, unused entries are blank, used
      entries belong to different hosts, and only logged-in entries are supervisors. */
  lemma {:induction false} ReachableInv(n: nat, es: Trace)
    requires Proper(es)
    ensures Inv(RunFrom(Initial(n), es))
    decreases |es|
  {
    hide Inv, Step, Initial;
    if es != [] {
      var before := es[..|es| - 1];
      ReachableInv(n, before);
      StepKeeps(RunFrom(Initial(n), before), es[|es| - 1].event, es[|es| - 1].now);
    }
  }

  // ----- why a connection is dropped -----------------------------------------------------------

  predicate Late(k: Connection, now: nat) {
    !k.status.Unused? && now > k.lastTime + 300
  }

  /** The event sends connection i a watchdog query. */
  predicate Queries(t: Table, e: Timed, i: nat)
    requires 1 <= i < |t|
  {
    e.event.Tick? && Late(t[i], e.now) && t[i].wdogTime == 0
  }

  /** The cleanup drops connection i. */
  predicate Drops(t: Table, e: Timed, i: nat)
    requires 1 <= i < |t|
  {
    e.event.Tick? && !t[i].status.Unused? && Step(t, e.event, e.now)[i].status.Unused?
  }

  /** The event forgets a query sent to entry i: an accepted 'N' reply, a new attachment, or the
      end of the connection. */
  predicate Settles(t: Table, e: Timed, i: nat)
    requires 1 <= i < |t|
  {
    match e.event
    case AttachRequest(from) => Attach(t, from, e.now).1 == i
    case Request(c, from, _, _, action) =>
      Served(t, c, from) && t[c].supervisor && action.ClearConnection? && action.k == i
    case Destroy(c, from, _, _) => Served(t, c, from) && c == i
    case Clear(k) => k == i
    case Reply(cid, from, sign) => ReplyCounts(t, cid, from, sign) && cid == i
    case Tick => Drops(t, e, i)
  }

  /** Event j of the trace sent entry i a query and no later event settled it. */
  ghost predicate Pending(t: Table, es: Trace, j: nat, i: nat)
    requires 1 <= i < |t| && j < |es|
  {
    && Queries(RunFrom(t, es[..j]), es[j], i)
    && forall m :: j < m < |es| ==> !Settles(RunFrom(t, es[..m]), es[m], i)
  }

  /** A query to entry i is still out. */
  ghost predicate Queried(t: Table, es: Trace, i: nat)
    requires 1 <= i < |t|
  {
    exists j :: 0 <= j < |es| && Pending(t, es, j, i)
  }

  lemma StepTimes(t: Table, e: Timed, i: nat)
    requires Inv(t) && FromHost(e.event) && e.now > 0 && 1 <= i < |t|
    ensures var t' := Step(t, e.event, e.now);
      && (Settles(t, e, i) ==> t'[i].wdogTime == 0)
      && (Queries(t, e, i) ==> t'[i].wdogTime != 0 && !Settles(t, e, i))
      && (!Settles(t, e, i) && !Queries(t, e, i) ==> t'[i].wdogTime == t[i].wdogTime)
  {
  }

  lemma PendingStep(t: Table, es: Trace, j: nat, i: nat)
    requires 1 <= i < |t| && es != [] && j < |es| - 1
    ensures var before, e := es[..|es| - 1], es[|es| - 1];
      Pending(t, es, j, i) <==> Pending(t, before, j, i) && !Settles(RunFrom(t, before), e, i)
  {
    hide Queries, Settles, RunFrom;
    var before := es[..|es| - 1];
    assert forall m :: 0 <= m <= |before| ==> es[..m] == before[..m];
    assert before[..|before|] == before;
  }

  lemma PendingLast(t: Table, es: Trace, i: nat)
    requires 1 <= i < |t| && es != []
    ensures Pending(t, es, |es| - 1, i) <==> Queries(RunFrom(t, es[..|es| - 1]), es[|es| - 1], i)
  {
  }

  lemma {:induction false} RunInv(t: Table, es: Trace)
    requires Inv(t) && Proper(es)
    ensures Inv(RunFrom(t, es))
    decreases |es|
  {
    hide Inv, Step;
    if es != [] {
      RunInv(t, es[..|es| - 1]);
      StepKeeps(RunFrom(t, es[..|es| - 1]), es[|es| - 1].event, es[|es| - 1].now);
    }
  }

  /** A query is recorded in the table exactly while it is pending. */
  lemma {:induction false} QueryIsPending(t: Table, es: Trace, i: nat)
    requires Inv(t) && Proper(es) && 1 <= i < |t| && t[i].wdogTime == 0
    ensures RunFrom(t, es)[i].wdogTime != 0 <==> Queried(t, es, i)
    decreases |es|
  {
    if es != [] {
      var before, e := es[..|es| - 1], es[|es| - 1];
      RunInv(t, before);
      QueryIsPending(t, before, i);
      StepTimes(RunFrom(t, before), e, i);
      hide Queries, Settles, Step, Inv;
      forall j | 0 <= j < |before|
        ensures Pending(t, es, j, i) <==> Pending(t, before, j, i) && !Settles(RunFrom(t, before), e, i)
      {
        PendingStep(t, es, j, i);
      }
      PendingLast(t, es, i);
    }
  }

  /** An event drops a connection exactly if it is a cleanup that finds the connection late while
      an earlier cleanup's query, which nothing has settled since, is out. */
  lemma DroppedExactlyIfQueried(n: nat, es: Trace, e: Timed, i: nat)
    requires Proper(es) && 1 <= i <= n
    ensures Drops(RunFrom(Initial(n), es), e, i) <==>
      e.event.Tick? && Late(RunFrom(Initial(n), es)[i], e.now) && Queried(Initial(n), es, i)
  {
    hide Queried;
    QueryIsPending(Initial(n), es, i);
  }

  // ----- silence -------------------------------------------------------------------------------

  /** The event, other than the cleanup, is about connection i. */
  predicate Concerns(t: Table, e: Timed, i: nat)
    requires 1 <= i < |t|
  {
    match e.event
    case Request(c, from, _, _, _) => (Served(t, c, from) && c == i) || Settles(t, e, i)
    case Tick => false
    case _ => Settles(t, e, i)
  }

  /** No event of the trace is about connection i. */
  ghost predicate Silent(t: Table, es: Trace, i: nat)
    requires 1 <= i < |t|
  {
    forall m :: 0 <= m < |es| ==> !Concerns(RunFrom(t, es[..m]), es[m], i)
  }

  /** The times of the cleanups that find connection k late, as long as it says nothing. */
  function LateTicks(k: Connection, es: Trace): (times: seq<nat>) {
    if es == [] then []
    else LateTicks(k, es[..|es| - 1]) +
         if es[|es| - 1].event.Tick? && Late(k, es[|es| - 1].now) then [es[|es| - 1].now] else []
  }

  /** A connection after late cleanups: the first sends a query unless one is out, the next drops. */
  function Faded(k: Connection, times: seq<nat>): Connection {
    if times == [] then k
    else if |times| == 1 && k.wdogTime == 0 then k.(wdogTime := times[0])
    else BLANK
  }

  lemma SilentStep(t: Table, e: Timed, i: nat)
    requires 1 <= i < |t| && !Concerns(t, e, i)
    ensures Step(t, e.event, e.now)[i] == if e.event.Tick? then Aged(t[i], e.now) else t[i]
  {
  }

  lemma SilentPrefix(t: Table, es: Trace, i: nat, n: nat)
    requires 1 <= i < |t| && Silent(t, es, i) && n <= |es|
    ensures Silent(t, es[..n], i)
  {
    hide Concerns, RunFrom;
    assert forall m :: 0 <= m <= n ==> es[..n][..m] == es[..m];
  }

  lemma SilentBefore(t: Table, es: Trace, i: nat)
    requires 1 <= i < |t| && Silent(t, es, i) && es != []
    ensures Silent(t, es[..|es| - 1], i) && !Concerns(RunFrom(t, es[..|es| - 1]), es[|es| - 1], i)
  {
    hide Concerns, RunFrom;
    SilentPrefix(t, es, i, |es| - 1);
  }

  lemma {:induction false} LatePositive(k: Connection, es: Trace)
    requires Proper(es)
    ensures forall m :: 0 <= m < |LateTicks(k, es)| ==> LateTicks(k, es)[m] > 0
  {
    if es != [] { LatePositive(k, es[..|es| - 1]); }
  }

  /** What becomes of a connection that says nothing depends only on the late cleanups. */
  lemma {:induction false} SilentFades(t: Table, es: Trace, i: nat)
    requires 1 <= i < |t| && Silent(t, es, i) && !t[i].status.Unused? && Proper(es)
    ensures RunFrom(t, es)[i] == Faded(t[i], LateTicks(t[i], es))
    decreases |es|
  {
    if es != [] {
      var before, e := es[..|es| - 1], es[|es| - 1];
      SilentBefore(t, es, i);
      SilentFades(t, before, i);
      SilentStep(RunFrom(t, before), e, i);
      LatePositive(t[i], before);
      hide Step, Concerns, Silent;
    }
  }

  /** A served request that does not end the connection refreshes the time of its last activity but
      leaves a query pending: the next time it is late it is dropped without another query. */
  lemma BusyIsDroppedUnasked(t: Table, r: Timed, es: Trace, i: nat)
    requires 1 <= i < |t| && !t[i].status.Unused? && t[i].wdogTime != 0
    requires r.event.Request? && Served(t, r.event.c, r.event.from) && r.event.c == i && !Settles(t, r, i)
    requires var t' := Step(t, r.event, r.now);
      Silent(t', es, i) && Proper(es) && LateTicks(t'[i], es) != []
    ensures var t' := Step(t, r.event, r.now);
      t'[i].lastTime == r.now && RunFrom(t', es)[i] == BLANK
  {
    SilentFades(Step(t, r.event, r.now), es, i);
  }

  ghost predicate Monotone(es: Trace) {
    forall i, j :: 0 <= i < j < |es| ==> es[i].now <= es[j].now
  }

  ghost predicate FirstLate(k: Connection, es: Trace, a: nat) {
    && a < |es| && es[a].event.Tick? && Late(k, es[a].now)
    && forall m :: 0 <= m < a && es[m].event.Tick? ==> !Late(k, es[m].now)
  }

  ghost predicate NextTick(es: Trace, a: nat, b: nat) {
    a < b < |es| && es[b].event.Tick? && forall m :: a < m < b ==> !es[m].event.Tick?
  }

  lemma {:induction false} LateAt(k: Connection, es: Trace, n: nat)
    requires n <= |es|
    ensures (forall m :: 0 <= m < n && es[m].event.Tick? ==> !Late(k, es[m].now)) ==> LateTicks(k, es[..n]) == []
    ensures n < |es| ==>
      LateTicks(k, es[..n + 1]) ==
      LateTicks(k, es[..n]) + if es[n].event.Tick? && Late(k, es[n].now) then [es[n].now] else []
  {
    if n < |es| { assert es[..n + 1][..n] == es[..n]; }
    if n > 0 {
      assert es[..n][..n - 1] == es[..n - 1];
      LateAt(k, es, n - 1);
    }
  }

  lemma {:induction false} NoTicksBetween(k: Connection, es: Trace, a: nat, b: nat)
    requires a <= b <= |es| && forall m :: a <= m < b ==> !es[m].event.Tick?
    ensures LateTicks(k, es[..b]) == LateTicks(k, es[..a])
  {
    if a < b {
      NoTicksBetween(k, es, a, b - 1);
      LateAt(k, es, b - 1);
    }
  }

  lemma StillLate(k: Connection, now: nat, later: nat)
    requires Late(k, now) && now <= later
    ensures Late(k, later)
  {
  }

  lemma {:induction false} LateGrow(k: Connection, es: Trace, m: nat, n: nat)
    requires m <= n <= |es|
    ensures |LateTicks(k, es[..m])| <= |LateTicks(k, es[..n])|
  {
    if m < n {
      LateGrow(k, es, m, n - 1);
      LateAt(k, es, n - 1);
    }
  }

  /** Under a clock that does not run backwards, a connection without a pending query that stays
      silent is queried at the first cleanup more than the timeout after its last activity, is
      otherwise untouched until then, and is dropped at the very next cleanup. */
  lemma SilentIsQueriedThenDropped(t: Table, es: Trace, i: nat, a: nat, b: nat)
    requires 1 <= i < |t| && !t[i].status.Unused? && t[i].wdogTime == 0
    requires Silent(t, es, i) && Proper(es) && Monotone(es)
    requires FirstLate(t[i], es, a) && NextTick(es, a, b)
    ensures forall n :: 0 <= n <= a ==> RunFrom(t, es[..n])[i] == t[i]
    ensures forall n :: a < n <= b ==> RunFrom(t, es[..n])[i] == t[i].(wdogTime := es[a].now)
    ensures forall n :: b < n <= |es| ==> RunFrom(t, es[..n])[i] == BLANK
  {
    hide RunFrom, Silent, LateTicks, Late;
    var k := t[i];
    forall n | 0 <= n <= |es| ensures Silent(t, es[..n], i) { SilentPrefix(t, es, i, n); }
    forall n | 0 <= n <= a ensures RunFrom(t, es[..n])[i] == k {
      LateAt(k, es, n);
      SilentFades(t, es[..n], i);
    }
    LateAt(k, es, a);
    forall n | a < n <= b ensures RunFrom(t, es[..n])[i] == k.(wdogTime := es[a].now) {
      NoTicksBetween(k, es, a + 1, n);
      SilentFades(t, es[..n], i);
    }
    NoTicksBetween(k, es, a + 1, b);
    LateAt(k, es, b);
    StillLate(k, es[a].now, es[b].now);
    forall n | b < n <= |es| ensures RunFrom(t, es[..n])[i] == BLANK {
      LateGrow(k, es, b + 1, n);
      SilentFades(t, es[..n], i);
    }
  }
}
