/** The connection table of conn.c and the packets that change it: attach, requests, login,
    logout, destroy, clear, watchdog replies and the periodic cleanup.  Entry 0 exists but is
    never given to a client. */
module Connections {
  import opened Bytes

  type uint48 = x: int | 0 <= x < 0x1_0000_0000_0000

  datatype Addr = Addr(net: uint32, node: uint48, port: uint16)

  datatype Status = Unused | Attached | LoggedIn

  datatype Connection = Connection(status: Status, addr: Addr, seqNo: byte, taskNo: byte,
                                   loginTime: nat, lastTime: nat, wdogTime: nat,
                                   objectId: uint32, objectType: uint16, supervisor: bool)

  /** An entry of zero bytes. */
  const BLANK := Connection(Unused, Addr(0, 0, 0), 0, 0, 0, 0, 0, 0, 0, false)

  const TIMEOUT: nat := 300

  type Table = s: seq<Connection> | |s| > 0 witness [BLANK]

  // ----- searches ------------------------------------------------------------------------

  predicate SameHost(a: Addr, b: Addr) {
    a.net == b.net && a.node == b.node
  }

  predicate IsHost(a: Addr) {
    a.net != 0 || a.node != 0
  }

  /** First entry from i on with the host of a, or -1. */
  function ScanAddr(t: Table, i: nat, a: Addr): (c: int)
    ensures c == -1 || i <= c < |t|
    ensures c >= 0 ==> SameHost(t[c].addr, a) && forall j :: i <= j < c ==> !SameHost(t[j].addr, a)
    ensures c < 0 ==> forall j :: i <= j < |t| ==> !SameHost(t[j].addr, a)
    decreases |t| - i
  {
    if i >= |t| then -1 else if SameHost(t[i].addr, a) then i else ScanAddr(t, i + 1, a)
  }

  /** First unused entry from i on, or -1. */
  function FindFree(t: Table, i: nat): (c: int)
    ensures c == -1 || i <= c < |t|
    ensures c >= 0 ==> t[c].status.Unused? && forall j :: i <= j < c ==> !t[j].status.Unused?
    ensures c < 0 ==> forall j :: i <= j < |t| ==> !t[j].status.Unused?
    decreases |t| - i
  {
    if i >= |t| then -1 else if t[i].status.Unused? then i else FindFree(t, i + 1)
  }

  /** The used entries before i. */
  function UsedBefore(t: Table, i: nat): set<nat>
    requires i <= |t|
  {
    set j: nat | 1 <= j < i && !t[j].status.Unused?
  }

  function Used(t: Table): set<nat> {
    UsedBefore(t, |t|)
  }

  // ----- what the operations do ------------------------------------------------------------

  function LoggedOut(k: Connection): Connection {
    k.(status := Attached, objectId := NIL, objectType := 0xffff, supervisor := false)
  }

  function Attach(t: Table, from: Addr, now: nat): (Table, int) {
    var known := ScanAddr(t, 1, from);
    var c := if known < 0 then FindFree(t, 1) else known;
    if c < 0 then (t, -1)
    else (t[c := LoggedOut(t[c]).(addr := from, loginTime := now, lastTime := now, wdogTime := 0)], c)
  }

  /** What a file server request asks of the connection table. */
  datatype Action =
    | Other
    | Login(objectId: uint32, objectType: uint16, supervisor: bool)
    | Logout
    | ClearConnection(k: byte)

  /** A request or a destroy is served only if it comes from the full address of its entry. */
  predicate Served(t: Table, c: uint16, from: Addr) {
    c < |t| && t[c].addr == from
  }

  function Noted(t: Table, c: nat, task: byte, seqno: byte, now: nat): Table
    requires c < |t|
  {
    t[c := t[c].(taskNo := task, seqNo := seqno, lastTime := now)]
  }

  function Perform(t: Table, c: nat, action: Action): Table
    requires c < |t|
  {
    match action
    case Other => t
    case Login(objectId, objectType, supervisor) =>
      t[c := t[c].(status := LoggedIn, objectId := objectId, objectType := objectType, supervisor := supervisor)]
    case Logout => t[c := LoggedOut(t[c])]
    case ClearConnection(k) => if t[c].supervisor && k < |t| then t[k := BLANK] else t
  }

  /** What one cleanup does to one entry. */
  function Aged(k: Connection, now: nat): Connection {
    if k.status.Unused? || now <= k.lastTime + TIMEOUT then k
    else if k.wdogTime == 0 then k.(wdogTime := now)
    else BLANK
  }

  function Cleaned(t: Table, now: nat): (r: Table)
    ensures |r| == |t|
  {
    seq(|t|, i requires 0 <= i < |t| => if i == 0 then t[0] else Aged(t[i], now))
  }

  predicate ReplyCounts(t: Table, cid: byte, from: Addr, sign: char) {
    cid < |t| && SameHost(t[cid].addr, from) && sign == 'N'
  }

  datatype Event =
    | AttachRequest(from: Addr)
    | Request(c: uint16, from: Addr, task: byte, seqno: byte, action: Action)
    | Destroy(c: uint16, from: Addr, task: byte, seqno: byte)
    | Clear(k: nat)
    | Reply(cid: byte, from: Addr, sign: char)
    | Tick

  function Step(t: Table, e: Event, now: nat): (r: Table)
    ensures |r| == |t|
  {
    match e
    case AttachRequest(from) => Attach(t, from, now).0
    case Request(c, from, task, seqno, action) =>
      if Served(t, c, from) then Perform(Noted(t, c, task, seqno, now), c, action) else t
    case Destroy(c, from, _, _) => if Served(t, c, from) then t[c := BLANK] else t
    case Clear(k) => if k < |t| then t[k := BLANK] else t
    case Reply(cid, from, sign) =>
      if ReplyCounts(t, cid, from, sign) then t[cid := t[cid].(lastTime := now, wdogTime := 0)] else t
    case Tick => Cleaned(t, now)
  }

  // ----- the invariant -----------------------------------------------------------------------

  predicate EntryInv(k: Connection) {
    && (k.status.Unused? ==> k == BLANK)
    && (!k.status.Unused? ==> IsHost(k.addr))
    && (k.supervisor ==> k.status.LoggedIn?)
    && (k.status.Attached? ==> k.objectId == NIL && k.objectType == 0xffff)
  }

  /** Unused entries are blank, used entries belong to different hosts, and only a logged-in
      entry is a supervisor or has an object. */
  ghost predicate Inv(t: Table) {
    && t[0] == BLANK
    && (forall i :: 0 <= i < |t| ==> EntryInv(t[i]))
    && (forall i, j :: 0 <= i < j < |t| && !t[i].status.Unused? && !t[j].status.Unused? ==>
          !SameHost(t[i].addr, t[j].addr))
  }

  /** Packets come from hosts with a nonzero address. */
  predicate FromHost(e: Event) {
    match e
    case AttachRequest(from) => IsHost(from)
    case Request(_, from, _, _, _) => IsHost(from)
    case Destroy(_, from, _, _) => IsHost(from)
    case Reply(_, from, _) => IsHost(from)
    case _ => true
  }

  ghost function Initial(n: nat): (t: Table)
    ensures |t| == n + 1 && Inv(t)
  {
    seq(n + 1, _ => BLANK)
  }

  /** The numbers that clients can get in a table of n entries. */
  function Places(n: nat): (s: set<nat>)
    requires n > 0
    ensures |s| == n - 1
    ensures forall j: nat :: j in s <==> 1 <= j < n
  {
    if n == 1 then {} else Places(n - 1) + {n - 1}
  }

  lemma SubsetSize(a: set<nat>, b: set<nat>)
    requires a <= b
    ensures |a| <= |b| && (a != b ==> |a| < |b|)
  {
    assert b == a + (b - a);
    if a != b {
      var x :| x in b - a;
      assert |b - a| > 0;
    }
  }

  lemma FullTable(t: Table)
    ensures |Used(t)| <= |t| - 1
    ensures |Used(t)| == |t| - 1 <==> FindFree(t, 1) < 0
  {
    var all := Places(|t|);
    SubsetSize(Used(t), all);
    if FindFree(t, 1) < 0 {
      assert Used(t) == all;
    } else {
      var c: nat := FindFree(t, 1);
      assert c in all && c !in Used(t);
    }
  }

  /** The entry belongs to the network and node of the address. */
  predicate BelongsTo(k: Connection, a: Addr) {
    k.addr.net == a.net && k.addr.node == a.node
  }

  /** A known host gets its own entry, another host the first unused entry; only a new host at a
      full table gets none.  No other entry changes. */
  lemma AttachGives(t: Table, from: Addr, now: nat)
    requires Inv(t) && (from.net != 0 || from.node != 0)
    ensures var (t', c) := Attach(t, from, now);
      && (c < 0 <==> |Used(t)| == |t| - 1 && forall i :: 1 <= i < |t| ==> !BelongsTo(t[i], from))
      && (c < 0 ==> t' == t)
      && (c >= 0 ==>
            && 1 <= c < |t|
            && t' == t[c := Connection(
                  Attached, from, t[c].seqNo, t[c].taskNo, now, now, 0, 0xffff_ffff, 0xffff, false)])
      && (forall i :: 1 <= i < |t| && !t[i].status.Unused? && BelongsTo(t[i], from) ==> c == i)
      && (c >= 0 && !BelongsTo(t[c], from) ==>
            t[c].status.Unused? && forall i :: 1 <= i < c ==> !t[i].status.Unused?)
  {
    FullTable(t);
    hide Used;
    assert forall i :: 0 <= i < |t| ==> (BelongsTo(t[i], from) <==> SameHost(t[i].addr, from));
  }

  lemma BlankAt(t: Table, c: nat)
    requires Inv(t) && c < |t|
    ensures Inv(t[c := BLANK])
  {
  }

  lemma AttachKeeps(t: Table, from: Addr, now: nat)
    requires Inv(t) && IsHost(from)
    ensures Inv(Attach(t, from, now).0)
  {
  }

  lemma RequestKeeps(t: Table, c: uint16, from: Addr, task: byte, seqno: byte, action: Action, now: nat)
    requires Inv(t) && Served(t, c, from) && IsHost(from)
    ensures Inv(Perform(Noted(t, c, task, seqno, now), c, action))
  {
  }

  lemma CleanupKeeps(t: Table, now: nat)
    requires Inv(t)
    ensures Inv(Cleaned(t, now))
  {
  }

  lemma ReplyKeeps(t: Table, c: nat, now: nat)
    requires Inv(t) && c < |t| && IsHost(t[c].addr)
    ensures Inv(t[c := t[c].(lastTime := now, wdogTime := 0)])
  {
  }

  /** Every event keeps the invariant. */
  lemma StepKeeps(t: Table, e: Event, now: nat)
    requires Inv(t) && FromHost(e)
    ensures Inv(Step(t, e, now))
  {
    hide Inv, EntryInv, Attach, Perform, Noted, Cleaned;
    match e
    case AttachRequest(from) => AttachKeeps(t, from, now);
    case Request(c, from, task, seqno, action) =>
      if Served(t, c, from) { RequestKeeps(t, c, from, task, seqno, action, now); }
    case Destroy(c, from, _, _) => if Served(t, c, from) { BlankAt(t, c); }
    case Clear(k) => if k < |t| { BlankAt(t, k); }
    case Reply(cid, from, sign) => if ReplyCounts(t, cid, from, sign) { ReplyKeeps(t, cid, now); }
    case Tick => CleanupKeeps(t, now);
  }

  /** Watchdog packets carry the number of a connection in one byte: an echoed reply counts for
      connection c exactly when c is below 256. */
  lemma ReplyReaches(t: Table, c: nat, now: nat)
    requires Inv(t) && 1 <= c < |t| && !t[c].status.Unused?
    ensures var cid: byte := c % 256;
      (ReplyCounts(t, cid, t[c].addr, 'N') <==> c < 256)
      && (c >= 256 ==> Step(t, Reply(cid, t[c].addr, 'N'), now) == t)
  {
  }

  // ----- packet by packet --------------------------------------------------------------------------

  /** An entry that nobody uses. */
  function NoConnection(): Connection {
    Connection(Unused, Addr(0, 0, 0), 0, 0, 0, 0, 0, 0, 0, false)
  }

  /** What a request served from the full address of its entry leaves, field by field. */
  lemma ServedRequest(t: Table, c: uint16, from: Addr, task: byte, seqno: byte, action: Action, now: nat)
    requires c < |t| && t[c].addr == from
    ensures var t', k := Step(t, Request(c, from, task, seqno, action), now), t[c];
      match action
      case Other =>
        t' == t[c := Connection(k.status, from, seqno, task, k.loginTime, now, k.wdogTime,
                                k.objectId, k.objectType, k.supervisor)]
      case Login(id, typ, supervisor) =>
        t' == t[c := Connection(LoggedIn, from, seqno, task, k.loginTime, now, k.wdogTime, id, typ, supervisor)]
      case Logout =>
        t' == t[c := Connection(Attached, from, seqno, task, k.loginTime, now, k.wdogTime, 0xffff_ffff, 0xffff, false)]
      case ClearConnection(j) =>
        var noted := t[c := Connection(k.status, from, seqno, task, k.loginTime, now, k.wdogTime,
                                       k.objectId, k.objectType, k.supervisor)];
        t' == if k.supervisor && j < |t| then noted[j := NoConnection()] else noted
  {
  }

  /** Packets from another address change nothing; a destroy and a clear leave the entry unused; a
      reply counts exactly if it says 'N' and comes from the host of its entry. */
  lemma OtherPackets(t: Table, c: uint16, from: Addr, task: byte, seqno: byte, action: Action,
                     cid: byte, sign: char, k: nat, now: nat)
    ensures c >= |t| || t[c].addr != from ==>
      Step(t, Request(c, from, task, seqno, action), now) == t == Step(t, Destroy(c, from, task, seqno), now)
    ensures c < |t| && t[c].addr == from ==> Step(t, Destroy(c, from, task, seqno), now) == t[c := NoConnection()]
    ensures k < |t| ==> Step(t, Clear(k), now) == t[k := NoConnection()]
    ensures var t' := Step(t, Reply(cid, from, sign), now);
      if cid < |t| && BelongsTo(t[cid], from) && sign == 'N'
      then |t'| == |t| && t' == t[cid := t'[cid]] && t'[cid] == t[cid].(lastTime := now, wdogTime := 0)
      else t' == t
  {
  }

  // ----- the table in place ----------------------------------------------------------------------

  class ConnTable {
    const conn: array<Connection>

    ghost predicate Valid()
      reads this
    {
      conn.Length > 0
    }

    ghost function Entries(): Table
      requires Valid()
      reads this, conn
    {
      conn[..]
    }

    /** conn_init for n connections. */
    constructor (n: nat)
      ensures Valid() && fresh(conn) && Entries() == Initial(n) && Inv(Entries())
    {
      conn := new Connection[n + 1](_ => BLANK);
    }

    method FindFreeConn() returns (c: int)
      requires Valid()
      ensures c == FindFree(Entries(), 1)
    {
      var i := 1;
      while i < conn.Length
        invariant 1 <= i
        invariant FindFree(Entries(), 1) == FindFree(Entries(), i)
      {
        if conn[i].status.Unused? {
          return i;
        }
        i := i + 1;
      }
      return -1;
    }

    method CountUsed() returns (j: nat)
      requires Valid()
      ensures j == |Used(Entries())|
    {
      var i := 1;
      j := 0;
      assert UsedBefore(Entries(), 1) == {};
      while i < conn.Length
        invariant 1 <= i <= conn.Length && j == |UsedBefore(Entries(), i)|
      {
        assert UsedBefore(Entries(), i + 1) == UsedBefore(Entries(), i) + if conn[i].status.Unused? then {} else {i};
        if !conn[i].status.Unused? {
          j := j + 1;
        }
        i := i + 1;
      }
    }

    method ScanClientByAddr(addr: Addr) returns (c: int)
      requires Valid()
      ensures c == ScanAddr(Entries(), 1, addr)
    {
      var i := 1;
      while i < conn.Length
        invariant 1 <= i
        invariant ScanAddr(Entries(), 1, addr) == ScanAddr(Entries(), i, addr)
      {
        if SameHost(conn[i].addr, addr) {
          return i;
        }
        i := i + 1;
      }
      return -1;
    }

    method LogoutConn(c: nat)
      requires Valid() && c < conn.Length
      modifies conn
      ensures Entries() == old(Entries())[c := LoggedOut(old(conn[c]))]
    {
      conn[c] := conn[c].(status := Attached);
      conn[c] := conn[c].(objectId := NIL, objectType := 0xffff);
      conn[c] := conn[c].(supervisor := false);
    }

    method ClearConn(c: nat)
      requires Valid() && c < conn.Length
      modifies conn
      ensures Entries() == old(Entries())[c := BLANK]
    {
      LogoutConn(c);
      conn[c] := BLANK;
    }

    method AttachClient(addr: Addr, now: nat) returns (c: int)
      requires Valid()
      modifies conn
      ensures (Entries(), c) == Attach(old(Entries()), addr, now)
    {
      c := ScanClientByAddr(addr);
      if c < 0 {
        c := FindFreeConn();
        if c < 0 {
          return -1;
        }
      }
      LogoutConn(c);
      conn[c] := conn[c].(addr := addr);
      conn[c] := conn[c].(loginTime := now);
      conn[c] := conn[c].(lastTime := now);
      conn[c] := conn[c].(wdogTime := 0);
      assert Entries() == Attach(old(Entries()), addr, now).0;
    }

    method HandleRequest(c: nat, action: Action)
      requires Valid() && c < conn.Length
      modifies conn
      ensures Entries() == Perform(old(Entries()), c, action)
    {
      match action
      case Other =>
      case Login(objectId, objectType, supervisor) =>
        conn[c] := conn[c].(status := LoggedIn);
        conn[c] := conn[c].(objectType := objectType);
        conn[c] := conn[c].(objectId := objectId);
        conn[c] := conn[c].(supervisor := supervisor);
      case Logout => LogoutConn(c);
      case ClearConnection(k) =>
        if conn[c].supervisor && k as int < conn.Length {
          ClearConn(k);
        }
    }

    /** ncp_handle_packet; what a request asks of the table is the parameter action. */
    method HandlePacket(reqType: uint16, c: uint16, from: Addr, task: byte, seqno: byte, action: Action, now: nat)
      requires Valid()
      modifies conn
      ensures Entries() ==
        if reqType == 0x1111 then Step(old(Entries()), AttachRequest(from), now)
        else if reqType == 0x2222 then Step(old(Entries()), Request(c, from, task, seqno, action), now)
        else if reqType == 0x5555 then Step(old(Entries()), Destroy(c, from, task, seqno), now)
        else old(Entries())
    {
      if reqType == 0x2222 || reqType == 0x5555 {
        if c as int >= conn.Length {
          return;
        }
        if from != conn[c].addr {
          return;
        }
        conn[c] := conn[c].(taskNo := task, seqNo := seqno);
        conn[c] := conn[c].(lastTime := now);
      }
      if reqType == 0x1111 {
        var i := AttachClient(from, now);
      } else if reqType == 0x2222 {
        HandleRequest(c, action);
      } else if reqType == 0x5555 {
        conn[c] := BLANK;
      }
    }

    method Cleanup(now: nat)
      requires Valid()
      modifies conn
      ensures Entries() == Cleaned(old(Entries()), now)
    {
      var i := 1;
      while i < conn.Length
        invariant 1 <= i <= conn.Length
        invariant conn[0] == old(conn[0])
        invariant forall j :: 1 <= j < i ==> conn[j] == Aged(old(conn[j]), now)
        invariant forall j :: i <= j < conn.Length ==> conn[j] == old(conn[j])
      {
        if !conn[i].status.Unused? {
          if now > conn[i].lastTime + TIMEOUT {
            if conn[i].wdogTime == 0 {
              conn[i] := conn[i].(wdogTime := now);
            } else {
              ClearConn(i);
            }
          }
        }
        i := i + 1;
      }
    }

    /** wdog_handle_packet */
    method HandleReply(cid: byte, from: Addr, sign: char, now: nat)
      requires Valid()
      modifies conn
      ensures Entries() == Step(old(Entries()), Reply(cid, from, sign), now)
    {
      if cid as int >= conn.Length {
        return;
      }
      if SameHost(conn[cid].addr, from) {
        match sign
        case 'N' =>
          conn[cid] := conn[cid].(lastTime := now);
          conn[cid] := conn[cid].(wdogTime := 0);
        case _ =>
      }
    }
  }
}
