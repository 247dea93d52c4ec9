/** Who is logged in where: over every trace the object and the supervisor flag of an entry are
    those of the last login to it that nothing has ended since. */
module Sessions {
  import opened Bytes
  import opened Connections
  import opened Watchdog

  /** The event logs entry i in. */
  predicate LogsIn(t: Table, e: Timed, i: nat)
    requires i < |t|
  {
    match e.event
    case Request(c, from, _, _, action) => c == i && t[i].addr == from && action.Login?
    case _ => false
  }

  /** The event logs entry i out, gives it to a client afresh, or ends its connection. */
  predicate Ends(t: Table, e: Timed, i: nat)
    requires 1 <= i < |t|
  {
    match e.event
    case AttachRequest(from) => Attach(t, from, e.now).1 == i
    case Request(c, from, _, _, action) =>
      && c < |t| && t[c].addr == from
      && ((action.Logout? && c == i) || (action.ClearConnection? && action.k == i && t[c].supervisor))
    case Destroy(c, from, _, _) => c == i && t[i].addr == from
    case Clear(k) => k == i
    case Reply(_, _, _) => false
    case Tick => Drops(t, e, i)
  }

  /** Nobody is logged in. */
  predicate Vacant(k: Connection) {
    !k.status.LoggedIn? && !k.supervisor && (k.status.Attached? ==> k.objectId == 0xffff_ffff && k.objectType == 0xffff)
  }

  /** The entry shows what the login said. */
  predicate Shows(k: Connection, e: Event) {
    match e
    case Request(_, _, _, _, Login(id, typ, supervisor)) =>
      k.status.LoggedIn? && k.objectId == id && k.objectType == typ && k.supervisor == supervisor
    case _ => false
  }

  predicate SameSession(k: Connection, l: Connection) {
    k.status == l.status && k.objectId == l.objectId && k.objectType == l.objectType && k.supervisor == l.supervisor
  }

  /** The event does not concern who is logged in at entry i. */
  predicate Passes(t: Table, e: Timed, i: nat)
    requires 1 <= i < |t|
  {
    !LogsIn(t, e, i) && !Ends(t, e, i)
  }

  /** Event j logged entry i in, and all later ones pass. */
  ghost predicate LastLogin(t: Table, es: Trace, j: nat, i: nat)
    requires 1 <= i < |t| && j < |es|
  {
    LogsIn(RunFrom(t, es[..j]), es[j], i) && forall m :: j < m < |es| ==> Passes(RunFrom(t, es[..m]), es[m], i)
  }

  lemma StepSession(t: Table, e: Timed, i: nat)
    requires Inv(t) && FromHost(e.event) && 1 <= i < |t|
    ensures var t' := Step(t, e.event, e.now);
      && (LogsIn(t, e, i) ==> Shows(t'[i], e.event))
      && (Ends(t, e, i) ==> Vacant(t'[i]))
      && (Passes(t, e, i) ==> SameSession(t'[i], t[i]))
  {
    hide Inv;
  }

  lemma LastLoginStep(t: Table, es: Trace, j: nat, i: nat)
    requires 1 <= i < |t| && es != [] && j < |es| - 1
    ensures var before, e := es[..|es| - 1], es[|es| - 1];
      LastLogin(t, es, j, i) <==> LastLogin(t, before, j, i) && Passes(RunFrom(t, before), e, i)
  {
    hide LogsIn, Passes, RunFrom;
    var before := es[..|es| - 1];
    assert forall m :: 0 <= m <= |before| ==> es[..m] == before[..m];
    assert before[..|before|] == before;
  }

  lemma LastLoginNow(t: Table, es: Trace, i: nat)
    requires 1 <= i < |t| && es != []
    ensures LastLogin(t, es, |es| - 1, i) <==> LogsIn(RunFrom(t, es[..|es| - 1]), es[|es| - 1], i)
  {
  }

  lemma SameSessionKeeps(k: Connection, l: Connection)
    requires SameSession(k, l)
    ensures forall e :: Shows(l, e) ==> Shows(k, e)
    ensures Vacant(l) ==> Vacant(k)
  {
  }

  /** The entry shows the last login of the trace, if there is one, and otherwise is vacant. */
  ghost predicate HistoryFits(t: Table, es: Trace, i: nat, k: Connection)
    requires 1 <= i < |t|
  {
    && (forall j :: 0 <= j < |es| && LastLogin(t, es, j, i) ==> Shows(k, es[j].event))
    && ((forall j :: 0 <= j < |es| ==> !LastLogin(t, es, j, i)) ==> Vacant(k))
  }

  lemma HistoryStep(t: Table, es: Trace, i: nat, k: Connection, k': Connection)
    requires 1 <= i < |t| && es != [] && HistoryFits(t, es[..|es| - 1], i, k)
    requires var e, u := es[|es| - 1], RunFrom(t, es[..|es| - 1]);
      && (LogsIn(u, e, i) ==> Shows(k', e.event))
      && (Ends(u, e, i) ==> Vacant(k'))
      && (Passes(u, e, i) ==> SameSession(k', k))
    ensures HistoryFits(t, es, i, k')
  {
    hide RunFrom, LogsIn, Ends, Shows, Vacant, SameSession, LastLogin;
    var last := |es| - 1;
    var before := es[..last];
    forall j | 0 <= j < last
      ensures LastLogin(t, es, j, i) <==> LastLogin(t, before, j, i) && Passes(RunFrom(t, before), es[last], i)
    {
      LastLoginStep(t, es, j, i);
    }
    LastLoginNow(t, es, i);
    if Passes(RunFrom(t, before), es[last], i) { SameSessionKeeps(k', k); }
    forall j | 0 <= j < |es| && LastLogin(t, es, j, i) ensures Shows(k', es[j].event) {
      if j < last {
        assert before[j] == es[j];
        assert LastLogin(t, before, j, i);
      }
    }
    if forall j :: 0 <= j < |es| ==> !LastLogin(t, es, j, i) {
      assert !LastLogin(t, es, last, i);
      forall j | 0 <= j < |before| ensures Passes(RunFrom(t, before), es[last], i) ==> !LastLogin(t, before, j, i) {
        assert !LastLogin(t, es, j, i);
      }
    }
  }

  /** In every reachable table entry i shows the last login to it, if nothing ended that since, and
      otherwise nobody is logged in there. */
  lemma {:induction false} SessionIsLastLogin(n: nat, es: Trace, i: nat)
    requires Proper(es) && 1 <= i <= n
    ensures HistoryFits(Initial(n), es, i, RunFrom(Initial(n), es)[i])
    decreases |es|
  {
    var t := Initial(n);
    if es != [] {
      var before, e := es[..|es| - 1], es[|es| - 1];
      hide HistoryFits, LogsIn, Ends, Shows, Vacant, SameSession, Step, Inv, Initial;
      ReachableInv(n, before);
      SessionIsLastLogin(n, before, i);
      StepSession(RunFrom(t, before), e, i);
      HistoryStep(t, es, i, RunFrom(t, before)[i], RunFrom(t, es)[i]);
    }
  }
}
