/** The service table of sap.c: a fixed number of slots, found by case-folded name and type,
    refreshed by responses and emptied by the periodic cleanup.  A slot is free when its type
    is zero. */
module SapTable {
  import opened Bytes
  import opened MatchName

  const MAX_SERVICES: nat := 16
  const TIMEOUT: nat := 150

  /** The 48 name bytes of a record. */
  type ServiceName = s: seq<byte> | |s| == 48 witness seq(48, _ => 0)

  datatype Packet = Packet(typ: uint16, name: ServiceName, netAddr: seq<byte>, nodeAddr: seq<byte>,
                           socket: uint16, hops: uint16)

  datatype Entry = Entry(typ: uint16, name: ServiceName, netAddr: seq<byte>, nodeAddr: seq<byte>,
                         socket: uint16, hops: uint16, lastUpdate: nat)

  type Table = seq<Entry>
  type Key = (seq<byte>, uint16)
  type View = map<Key, Entry>

  /** The bytes before the first zero. */
  function Text(s: seq<byte>): seq<byte> {
    if s == [] || s[0] == 0 then [] else [s[0]] + Text(s[1..])
  }

  /** strncasecmp (a, b, 48) == 0 */
  predicate SameName(a: ServiceName, b: ServiceName) {
    Folded(Text(a)) == Folded(Text(b))
  }

  function KeyOf(e: Entry): Key {
    (Folded(Text(e.name)), e.typ)
  }

  /** The name bytes before position n are not zero, and the name ends there. */
  predicate EndsAt(name: ServiceName, n: nat) {
    n <= 48 && (n == 48 || name[n] == 0) && forall i :: 0 <= i < n ==> name[i] != 0
  }

  lemma {:induction false} TextMeans(s: seq<byte>)
    ensures var n := |Text(s)|;
      && n <= |s| && Text(s) == s[..n] && (n == |s| || s[n] == 0) && forall i :: 0 <= i < n ==> s[i] != 0
  {
    if s != [] && s[0] != 0 {
      TextMeans(s[1..]);
      var n := |Text(s[1..])|;
      forall i | 0 <= i < n + 1 ensures s[i] != 0 { if i > 0 { assert s[i] == s[1..][i - 1]; } }
      assert s[..n + 1] == [s[0]] + s[1..][..n];
    }
  }

  lemma EndsOnce(name: ServiceName, m: nat, n: nat)
    requires EndsAt(name, m) && EndsAt(name, n)
    ensures m == n
  {
  }

  /** Names are the same if they end at one place and are alike, but for letter case, up to it. */
  lemma SameNameMeans(a: ServiceName, b: ServiceName)
    ensures SameName(a, b) <==>
      exists n :: EndsAt(a, n) && EndsAt(b, n) && forall i :: 0 <= i < n ==> AlikeBytes(a[i], b[i])
  {
    hide Folded, Text;
    var x, y := Text(a), Text(b);
    TextMeans(a);
    TextMeans(b);
    FoldedMeans(x, y);
    if SameName(a, b) {
      assert EndsAt(a, |x|) && EndsAt(b, |x|);
      forall i | 0 <= i < |x| ensures AlikeBytes(a[i], b[i]) { assert AlikeBytes(x[i], y[i]); }
    }
    if n :| EndsAt(a, n) && EndsAt(b, n) && forall i :: 0 <= i < n ==> AlikeBytes(a[i], b[i]) {
      EndsOnce(a, n, |x|);
      EndsOnce(b, n, |y|);
      assert Alike(x, y);
    }
  }

  lemma KeysMean(e: Entry, f: Entry)
    ensures KeyOf(e) == KeyOf(f) <==> SameName(e.name, f.name) && e.typ == f.typ
  {
    hide Folded, Text;
  }

  function Stored(p: Packet, now: nat): Entry {
    Entry(p.typ, p.name, p.netAddr, p.nodeAddr, p.socket, p.hops, now)
  }

  // ----- searches ------------------------------------------------------------------------------

  function ScanService(t: Table, i: nat, name: ServiceName, typ: uint16): (c: int)
    ensures c == -1 || i <= c < |t|
    ensures c >= 0 ==> SameName(name, t[c].name) && t[c].typ == typ
    ensures c < 0 ==> forall j :: i <= j < |t| ==> !(SameName(name, t[j].name) && t[j].typ == typ)
    decreases |t| - i
  {
    if i >= |t| then -1
    else if SameName(name, t[i].name) && t[i].typ == typ then i
    else ScanService(t, i + 1, name, typ)
  }

  function ScanFree(t: Table, i: nat): (c: int)
    ensures c == -1 || i <= c < |t|
    ensures c >= 0 ==> t[c].typ == 0
    ensures c < 0 ==> forall j :: i <= j < |t| ==> t[j].typ != 0
    decreases |t| - i
  {
    if i >= |t| then -1 else if t[i].typ == 0 then i else ScanFree(t, i + 1)
  }

  /** The slot that a record goes to, or -1 if there is none. */
  function Slot(t: Table, p: Packet): int {
    var c := ScanService(t, 0, p.name, p.typ);
    if c < 0 then ScanFree(t, 0) else c
  }

  /** The records of a response, up to the first one that finds no slot. */
  function Handled(t: Table, ps: seq<Packet>, now: nat): Table
    decreases |ps|
  {
    if ps == [] then t
    else
      var c := Slot(t, ps[0]);
      if !(0 <= c < |t|) then t else Handled(t[c := Stored(ps[0], now)], ps[1..], now)
  }

  function Kept(e: Entry, now: nat): Entry {
    if e.typ != 0 && now > e.lastUpdate + TIMEOUT then e.(typ := 0) else e
  }

  function Cleaned(t: Table, now: nat): Table {
    seq(|t|, i requires 0 <= i < |t| => Kept(t[i], now))
  }

  // ----- the table as a map -----------------------------------------------------------------------

  /** Live entries have different keys. */
  ghost predicate Inv(t: Table) {
    forall i, j :: 0 <= i < j < |t| && t[i].typ != 0 && t[j].typ != 0 ==> KeyOf(t[i]) != KeyOf(t[j])
  }

  ghost function ViewOf(t: Table): View {
    if t == [] then map[]
    else
      var e := t[|t| - 1];
      if e.typ != 0 then ViewOf(t[..|t| - 1])[KeyOf(e) := e] else ViewOf(t[..|t| - 1])
  }

  /** The live entries of t are exactly the items of m. */
  ghost predicate Items(t: Table, m: View) {
    && (forall i :: 0 <= i < |t| && t[i].typ != 0 ==> KeyOf(t[i]) in m && m[KeyOf(t[i])] == t[i])
    && (forall k :: k in m ==> exists i :: 0 <= i < |t| && t[i].typ != 0 && KeyOf(t[i]) == k)
  }

  lemma ItemsSnoc(t: Table, m: View)
    requires Inv(t) && t != [] && Items(t[..|t| - 1], m)
    ensures var e := t[|t| - 1];
      Items(t, if e.typ != 0 then m[KeyOf(e) := e] else m)
  {
  }

  lemma {:induction false} ViewItems(t: Table)
    requires Inv(t)
    ensures Items(t, ViewOf(t))
  {
    hide KeyOf;
    if t != [] {
      var last := |t| - 1;
      ViewItems(t[..last]);
      ItemsSnoc(t, ViewOf(t[..last]));
    }
  }

  lemma SameItems(t: Table, m: View, n: View)
    requires Items(t, m) && Items(t, n)
    ensures m == n
  {
  }

  lemma ItemsDetermine(t: Table, m: View)
    requires Inv(t) && Items(t, m)
    ensures ViewOf(t) == m
  {
    hide KeyOf, ViewOf;
    ViewItems(t);
    SameItems(t, ViewOf(t), m);
  }

  lemma ViewSnoc(t: Table)
    requires Inv(t) && t != []
    ensures |ViewOf(t)| == |ViewOf(t[..|t| - 1])| + if t[|t| - 1].typ != 0 then 1 else 0
  {
    hide KeyOf;
    var last := |t| - 1;
    ViewItems(t[..last]);
    if t[last].typ != 0 {
      assert KeyOf(t[last]) !in ViewOf(t[..last]);
    }
  }

  /** The view has as many items as the table has live slots. */
  lemma {:induction false} ViewSize(t: Table)
    requires Inv(t)
    ensures |ViewOf(t)| <= |t|
    ensures |ViewOf(t)| == |t| <==> forall i :: 0 <= i < |t| ==> t[i].typ != 0
  {
    if t != [] {
      ViewSnoc(t);
      hide KeyOf, ViewOf;
      var last := |t| - 1;
      ViewSize(t[..last]);
      assert (forall i :: 0 <= i < |t| ==> t[i].typ != 0) <==>
             t[last].typ != 0 && forall i :: 0 <= i < last ==> t[..last][i].typ != 0;
    }
  }

  /** Insert-or-refresh on the map; None when a table of n slots is full. */
  ghost function Insert(view: View, p: Packet, now: nat, n: nat): Option<View> {
    var e := Entry(p.typ, p.name, p.netAddr, p.nodeAddr, p.socket, p.hops, now);
    if p.typ != 0 && KeyOf(e) in view then Some(view[KeyOf(e) := e])
    else if |view| == n then None
    else Some(if p.typ == 0 then view else view[KeyOf(e) := e])
  }

  /** The fold of insert-or-refresh that stops at the first record without room. */
  ghost function InsertAll(view: View, ps: seq<Packet>, now: nat, n: nat): View
    decreases |ps|
  {
    if ps == [] then view
    else
      match Insert(view, ps[0], now, n)
      case None => view
      case Some(next) => InsertAll(next, ps[1..], now, n)
  }

  ghost function Expire(view: View, now: nat): View {
    map k | k in view && now <= view[k].lastUpdate + 150 :: view[k]
  }

  lemma ScanIsLookup(t: Table, p: Packet, now: nat)
    requires Inv(t) && p.typ != 0
    ensures ScanService(t, 0, p.name, p.typ) >= 0 <==> KeyOf(Stored(p, now)) in ViewOf(t)
  {
  }

  /** Writing slot c keeps keys apart and acts on the view as one insertion. */
  lemma WriteSlot(t: Table, c: nat, e: Entry)
    requires Inv(t) && c < |t| && (t[c].typ == 0 || KeyOf(t[c]) == KeyOf(e))
    requires e.typ != 0 && (KeyOf(e) in ViewOf(t) ==> t[c].typ != 0)
    ensures Inv(t[c := e]) && ViewOf(t[c := e]) == ViewOf(t)[KeyOf(e) := e]
  {
    hide KeyOf, ViewOf;
    ViewItems(t);
    var t', m := t[c := e], ViewOf(t)[KeyOf(e) := e];
    forall k | k in m ensures exists i :: 0 <= i < |t'| && t'[i].typ != 0 && KeyOf(t'[i]) == k {
      if k == KeyOf(e) {
        assert KeyOf(t'[c]) == k;
      } else {
        var i :| 0 <= i < |t| && t[i].typ != 0 && KeyOf(t[i]) == k;
        assert t'[i] == t[i];
      }
    }
    ItemsDetermine(t', m);
  }

  lemma WriteFree(t: Table, c: nat, e: Entry)
    requires Inv(t) && c < |t| && t[c].typ == 0 && e.typ == 0
    ensures Inv(t[c := e]) && ViewOf(t[c := e]) == ViewOf(t)
  {
    hide KeyOf, ViewOf;
    ViewItems(t);
    var t' := t[c := e];
    forall k | k in ViewOf(t) ensures exists i :: 0 <= i < |t'| && t'[i].typ != 0 && KeyOf(t'[i]) == k {
      var i :| 0 <= i < |t| && t[i].typ != 0 && KeyOf(t[i]) == k;
      assert t'[i] == t[i];
    }
    ItemsDetermine(t', ViewOf(t));
  }

  lemma SlotKey(t: Table, p: Packet, now: nat)
    ensures var c := ScanService(t, 0, p.name, p.typ);
      c >= 0 ==> KeyOf(t[c]) == KeyOf(Stored(p, now)) && t[c].typ == p.typ
  {
  }

  /** One record of a response inserts or refreshes one item, and stops exactly at a full table. */
  lemma RecordRefines(t: Table, p: Packet, now: nat)
    requires Inv(t)
    ensures var c := Slot(t, p);
      match Insert(ViewOf(t), p, now, |t|)
      case None => c < 0
      case Some(view) =>
        0 <= c < |t| && Inv(t[c := Stored(p, now)]) && ViewOf(t[c := Stored(p, now)]) == view
  {
    hide KeyOf, ViewOf, SameName;
    var c, e := Slot(t, p), Stored(p, now);
    ViewSize(t);
    if p.typ != 0 {
      ScanIsLookup(t, p, now);
      if c >= 0 {
        SlotKey(t, p, now);
        WriteSlot(t, c, e);
      }
    } else if c >= 0 {
      WriteFree(t, c, e);
    } else {
      assert |ViewOf(t)| == |t|;
    }
  }

  /** A response refines the fold of insert-or-refresh. */
  lemma {:induction false} ResponseRefines(t: Table, ps: seq<Packet>, now: nat)
    requires Inv(t)
    ensures Inv(Handled(t, ps, now)) && |Handled(t, ps, now)| == |t|
    ensures ViewOf(Handled(t, ps, now)) == InsertAll(ViewOf(t), ps, now, |t|)
    decreases |ps|
  {
    hide Inv, ViewOf, Insert, Slot, Stored;
    if ps != [] {
      RecordRefines(t, ps[0], now);
      var c := Slot(t, ps[0]);
      if 0 <= c < |t| {
        ResponseRefines(t[c := Stored(ps[0], now)], ps[1..], now);
      }
    }
  }

  /** The cleanup removes exactly the entries that were not refreshed within the timeout. */
  lemma CleanupRefines(t: Table, now: nat)
    requires Inv(t)
    ensures Inv(Cleaned(t, now)) && ViewOf(Cleaned(t, now)) == Expire(ViewOf(t), now)
  {
    hide KeyOf, ViewOf;
    ViewItems(t);
    var t', m := Cleaned(t, now), Expire(ViewOf(t), now);
    assert forall i :: 0 <= i < |t| && t'[i].typ != 0 ==> t'[i] == t[i] && now <= t[i].lastUpdate + TIMEOUT;
    forall k | k in m ensures exists i :: 0 <= i < |t'| && t'[i].typ != 0 && KeyOf(t'[i]) == k {
      var i :| 0 <= i < |t| && t[i].typ != 0 && KeyOf(t[i]) == k;
      assert t'[i] == t[i];
    }
    ItemsDetermine(t', m);
  }

  // ----- runs -----------------------------------------------------------------------------------

  datatype Event = Response(ps: seq<Packet>, now: nat) | Cleanup(now: nat)

  function Run(t: Table, es: seq<Event>): Table
    decreases |es|
  {
    if es == [] then t
    else
      match es[0]
      case Response(ps, now) => Run(Handled(t, ps, now), es[1..])
      case Cleanup(now) => Run(Cleaned(t, now), es[1..])
  }

  ghost function MapRun(view: View, es: seq<Event>, n: nat): View
    decreases |es|
  {
    if es == [] then view
    else
      match es[0]
      case Response(ps, now) => MapRun(InsertAll(view, ps, now, n), es[1..], n)
      case Cleanup(now) => MapRun(Expire(view, now), es[1..], n)
  }

  lemma CleanedSize(t: Table, now: nat)
    ensures |Cleaned(t, now)| == |t|
  {
  }

  /** Over every run of responses and cleanups live entries have different keys, and the table
      means what the same run makes of a map of bounded size. */
  lemma {:induction false} RunRefines(t: Table, es: seq<Event>)
    requires Inv(t)
    ensures Inv(Run(t, es)) && ViewOf(Run(t, es)) == MapRun(ViewOf(t), es, |t|)
    decreases |es|
  {
    hide Inv, ViewOf, Handled, Cleaned, InsertAll, Expire;
    if es != [] {
      match es[0]
      case Response(ps, now) =>
        ResponseRefines(t, ps, now);
        RunRefines(Handled(t, ps, now), es[1..]);
      case Cleanup(now) =>
        CleanupRefines(t, now);
        CleanedSize(t, now);
        RunRefines(Cleaned(t, now), es[1..]);
    }
  }

  // ----- the table in place -----------------------------------------------------------------------

  class Services {
    const service: array<Entry>

    constructor ()
      ensures fresh(service) && service.Length == 16 && Inv(service[..])
      ensures ViewOf(service[..]) == map[]
    {
      service := new Entry[MAX_SERVICES](_ => Entry(0, seq(48, _ => 0), [0, 0, 0, 0], [0, 0, 0, 0, 0, 0], 0, 0, 0));
      new;
      ItemsDetermine(service[..], map[]);
    }

    method ScanFor(name: ServiceName, typ: uint16) returns (c: int)
      ensures c == ScanService(service[..], 0, name, typ)
    {
      hide SameName;
      var i := 0;
      while i < service.Length
        invariant 0 <= i
        invariant ScanService(service[..], 0, name, typ) == ScanService(service[..], i, name, typ)
      {
        if SameName(name, service[i].name) && service[i].typ == typ {
          return i;
        }
        i := i + 1;
      }
      return -1;
    }

    method ScanFreeNo() returns (c: int)
      ensures c == ScanFree(service[..], 0)
    {
      var i := 0;
      while i < service.Length
        invariant 0 <= i
        invariant ScanFree(service[..], 0) == ScanFree(service[..], i)
      {
        if service[i].typ == 0 {
          return i;
        }
        i := i + 1;
      }
      return -1;
    }

    /** The table part of sap_handle_response, on the records of a packet of proper size. */
    method HandleResponse(ps: seq<Packet>, now: nat)
      requires ps != []
      modifies service
      ensures service[..] == Handled(old(service[..]), ps, now)
    {
      hide SameName;
      ghost var t := service[..];
      var sp := 0;
      while sp < |ps|
        invariant sp <= |ps|
        invariant Handled(service[..], ps[sp..], now) == Handled(t, ps, now)
      {
        var p := ps[sp];
        assert ps[sp..][1..] == ps[sp + 1..];
        ghost var before := service[..];
        var i := ScanFor(p.name, p.typ);
        if i < 0 {
          i := ScanFreeNo();
          if i < 0 {
            return;
          }
        }
        service[i] := service[i].(typ := p.typ);
        service[i] := service[i].(name := p.name);
        service[i] := service[i].(netAddr := p.netAddr);
        service[i] := service[i].(nodeAddr := p.nodeAddr);
        service[i] := service[i].(socket := p.socket);
        service[i] := service[i].(hops := p.hops);
        service[i] := service[i].(lastUpdate := now);
        assert service[..] == before[i := Stored(p, now)];
        sp := sp + 1;
      }
    }

    method CleanUp(now: nat)
      modifies service
      ensures service[..] == Cleaned(old(service[..]), now)
    {
      var i := 0;
      while i < service.Length
        invariant 0 <= i <= service.Length
        invariant forall j :: 0 <= j < i ==> service[j] == Kept(old(service[j]), now)
        invariant forall j :: i <= j < service.Length ==> service[j] == old(service[j])
      {
        if service[i].typ != 0 {
          if now > service[i].lastUpdate + TIMEOUT {
            service[i] := service[i].(typ := 0);
          }
        }
        i := i + 1;
      }
    }
  }
}
