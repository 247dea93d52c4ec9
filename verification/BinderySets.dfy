/** Set properties of bindery.c.  Adding, deleting and testing a member look at the 128 data
    bytes through overlapping windows of four bytes at the offsets 0 to 31, not at the multiples
    of four; this module says what that means. */
module BinderySets {
  import opened Bytes
  import opened RecordFiles
  import opened BinderyHeap
  import opened BinderyStore
  import opened BinderyFiles
  import U = BinderyUpdate

  const SECURITY: byte := 0xf1
  const NOSUCHMEMBER: byte := 0xea

  const WINDOWS: nat := 32

  // ----- windows -----------------------------------------------------------------------------

  function Window(data: Block, i: nat): uint32
    requires i < WINDOWS
  {
    GetBE32(data[i..i + 4])
  }

  /** data with a number written at offset i. */
  function PutAt(data: Block, i: nat, id: uint32): Block
    requires i < WINDOWS
  {
    data[..i] + PutBE32(id) + data[i + 4..]
  }

  predicate Member(data: Block, id: uint32) {
    exists i :: 0 <= i < WINDOWS && Window(data, i) == id
  }

  /** First window from i on that is the id or empty, or WINDOWS. */
  function FirstFit(data: Block, i: nat, id: uint32): (r: nat)
    requires i <= WINDOWS
    ensures i <= r <= WINDOWS
    ensures r < WINDOWS ==> Window(data, r) == id || Window(data, r) == 0
    ensures forall j :: i <= j < r ==> Window(data, j) != id && Window(data, j) != 0
    decreases WINDOWS - i
  {
    if i == WINDOWS || Window(data, i) == id || Window(data, i) == 0 then i else FirstFit(data, i + 1, id)
  }

  /** The data after adding a member, if there is room before the member itself shows up. */
  function Added(data: Block, id: uint32): Option<Block> {
    var i := FirstFit(data, 0, id);
    if i == WINDOWS || Window(data, i) == id then None else Some(PutAt(data, i, id))
  }

  /** The data after n steps of deleting a member, and whether a step found it. */
  function Deleting(data: Block, n: nat, id: uint32): (Block, bool)
    requires n <= WINDOWS
  {
    if n == 0 then (data, false)
    else
      var (d, ok) := Deleting(data, n - 1, id);
      if Window(d, n - 1) == id then (PutAt(d, n - 1, 0), true) else (d, ok)
  }

  function Deleted(data: Block, id: uint32): Option<Block> {
    var (d, ok) := Deleting(data, WINDOWS, id);
    if ok then Some(d) else None
  }

  lemma PutBytes(data: Block, i: nat, id: uint32)
    requires i < WINDOWS
    ensures forall j :: 0 <= j < 128 ==> PutAt(data, i, id)[j] == if i <= j < i + 4 then PutBE32(id)[j - i] else data[j]
    ensures Window(PutAt(data, i, id), i) == id
  {
    BE32RoundTrip(id);
    hide PutBE32, GetBE32;
    assert PutAt(data, i, id)[i..i + 4] == PutBE32(id);
  }

  /** A member that was added is found. */
  lemma AddedIsMember(data: Block, id: uint32)
    requires Added(data, id).Some?
    ensures Member(Added(data, id).value, id)
  {
    PutBytes(data, FirstFit(data, 0, id), id);
  }

  // ----- deletion --------------------------------------------------------------------------------

  /** The ids for which zeroing a window cannot turn an earlier window into the id: the lowest byte
      is not zero, or the highest is and the second lowest is not. */
  predicate SafeToDelete(id: uint32) {
    id % 0x100 != 0 || (id / 0x100_0000 == 0 && id / 0x100 % 0x100 != 0)
  }

  lemma SafeBytes(id: uint32)
    ensures var b := PutBE32(id);
      SafeToDelete(id) <==> b[3] != 0 || (b[0] == 0 && b[2] != 0)
  {
  }

  /** The four bytes from k on are those of the id. */
  predicate Shows(data: Block, k: nat, id: uint32)
    requires k < WINDOWS
  {
    var b := PutBE32(id);
    data[k] == b[0] && data[k + 1] == b[1] && data[k + 2] == b[2] && data[k + 3] == b[3]
  }

  lemma WindowShows(data: Block, k: nat, id: uint32)
    requires k < WINDOWS
    ensures Window(data, k) == id <==> Shows(data, k, id)
  {
    BE32RoundTrip(id);
    BE32Inverse(data[k..k + 4]);
    hide PutBE32, GetBE32;
    var w, b := data[k..k + 4], PutBE32(id);
    assert w[0] == data[k] && w[1] == data[k + 1] && w[2] == data[k + 2] && w[3] == data[k + 3];
    if Shows(data, k, id) { assert w == b; }
  }

  /** Zeroing window n does not make an earlier window show a safe id. */
  lemma ZeroingHidesNothing(data: Block, n: nat, k: nat, id: uint32)
    requires k < n < WINDOWS && SafeToDelete(id)
    requires Window(data, n) == id && Window(data, k) != id
    ensures Window(PutAt(data, n, 0), k) != id
  {
    var zeroed := PutAt(data, n, 0);
    SafeBytes(id);
    WindowShows(data, n, id);
    WindowShows(data, k, id);
    WindowShows(zeroed, k, id);
    PutBytes(data, n, 0);
    assert PutBE32(0) == [0, 0, 0, 0];
    hide Window, PutAt, PutBE32, SafeToDelete;
  }

  lemma ZeroNotSafe()
    ensures !SafeToDelete(0)
  {
  }

  lemma {:induction false} DeletingHides(data: Block, n: nat, id: uint32)
    requires n <= WINDOWS && SafeToDelete(id)
    ensures forall k :: 0 <= k < n ==> Window(Deleting(data, n, id).0, k) != id
  {
    if n > 0 {
      DeletingHides(data, n - 1, id);
      ZeroNotSafe();
      var d := Deleting(data, n - 1, id).0;
      PutBytes(d, n - 1, 0);
      hide SafeToDelete, PutAt, Window;
      if Window(d, n - 1) == id {
        var zeroed := PutAt(d, n - 1, 0);
        forall k | 0 <= k < n - 1 ensures Window(zeroed, k) != id {
          ZeroingHidesNothing(d, n - 1, k, id);
        }
      }
    }
  }

  /** Bytes followed by zeros. */
  function Padded(b: seq<byte>): Block
    requires |b| <= 128
  {
    b + seq(128 - |b|, _ => 0)
  }

  /** Data from which deleting an unsafe id leaves the id a member. */
  function Survivor(id: uint32): Block {
    var b := PutBE32(id);
    if b[0] != 0 then Padded([b[0], b[1], b[2], b[0], b[1], b[2]]) else Padded([0, b[1], 0, b[1]])
  }

  lemma {:induction false} DeletingQuiet(data: Block, m: nat, n: nat, id: uint32)
    requires m <= n <= WINDOWS
    requires forall k :: m <= k < n ==> Window(Deleting(data, m, id).0, k) != id
    ensures Deleting(data, n, id) == Deleting(data, m, id)
  {
    hide Window, PutAt;
    if m < n { DeletingQuiet(data, m, n - 1, id); }
  }

  /** If only window n of data shows the id, and none from n on once it is zeroed, deletion zeroes
      that window and nothing else. */
  lemma DeletesOne(data: Block, n: nat, id: uint32)
    requires n < WINDOWS && Shows(data, n, id) && forall k :: 0 <= k < n ==> !Shows(data, k, id)
    requires forall k :: n < k < WINDOWS ==> !Shows(PutAt(data, n, 0), k, id)
    ensures Deleting(data, WINDOWS, id) == (PutAt(data, n, 0), true)
  {
    hide Window, PutAt, Shows;
    var d := PutAt(data, n, 0);
    forall k | 0 <= k <= n ensures Window(data, k) == id <==> Shows(data, k, id) { WindowShows(data, k, id); }
    forall k | n < k < WINDOWS ensures Window(d, k) == id <==> Shows(d, k, id) { WindowShows(d, k, id); }
    assert Deleting(data, 0, id) == (data, false);
    DeletingQuiet(data, 0, n, id);
    assert Deleting(data, n + 1, id) == (d, true);
    DeletingQuiet(data, n + 1, WINDOWS, id);
  }

  lemma SurvivesHigh(id: uint32)
    requires PutBE32(id)[0] != 0 && PutBE32(id)[3] == 0
    ensures var (d, ok) := Deleting(Survivor(id), WINDOWS, id);
      ok && Shows(d, 0, id)
  {
    hide Deleting, PutAt;
    var b, data := PutBE32(id), Survivor(id);
    assert forall j :: 0 <= j < 128 ==> data[j] == if j < 6 then b[j % 3] else 0;
    PutBytes(data, 3, 0);
    assert PutBE32(0) == [0, 0, 0, 0];
    hide PutBE32, Survivor;
    DeletesOne(data, 3, id);
  }

  lemma SurvivesLow(id: uint32)
    requires PutBE32(id)[0] == PutBE32(id)[2] == PutBE32(id)[3] == 0 && PutBE32(id)[1] != 0
    ensures var (d, ok) := Deleting(Survivor(id), WINDOWS, id);
      ok && Shows(d, 0, id)
  {
    hide Deleting, PutAt;
    var b, data := PutBE32(id), Survivor(id);
    assert forall j :: 0 <= j < 128 ==> data[j] == if j == 1 || j == 3 then b[1] else 0;
    PutBytes(data, 2, 0);
    assert PutBE32(0) == [0, 0, 0, 0];
    hide PutBE32, Survivor;
    DeletesOne(data, 2, id);
  }

  lemma {:induction false} StaysZero(n: nat)
    requires n <= WINDOWS
    ensures Deleting(ZEROES, n, 0) == (ZEROES, n > 0)
  {
    if n > 0 {
      StaysZero(n - 1);
      WindowShows(ZEROES, n - 1, 0);
      assert PutBE32(0) == [0, 0, 0, 0];
      assert PutAt(ZEROES, n - 1, 0) == ZEROES;
      hide PutAt, Window;
    }
  }

  /** Deleting the id 0 rewrites empty windows and leaves them empty. */
  lemma SurvivesZero()
    ensures var (d, ok) := Deleting(Survivor(0), WINDOWS, 0);
      ok && Shows(d, 0, 0)
  {
    assert PutBE32(0) == [0, 0, 0, 0];
    assert Survivor(0) == ZEROES;
    hide Deleting, Survivor;
    StaysZero(WINDOWS);
  }

  /** After a successful deletion the member test fails, whatever the data was, exactly for the
      safe ids; in particular for every id whose lowest byte is not zero. */
  lemma DeletedIsGoneExactlyWhen(id: uint32)
    ensures (forall data :: Deleted(data, id).Some? ==> !Member(Deleted(data, id).value, id)) <==> SafeToDelete(id)
  {
    if SafeToDelete(id) {
      forall data | Deleted(data, id).Some? ensures !Member(Deleted(data, id).value, id) {
        DeletingHides(data, WINDOWS, id);
      }
    } else {
      hide Deleting, Window;
      var data := Survivor(id);
      BE32RoundTrip(id);
      SafeBytes(id);
      if PutBE32(id)[0] != 0 {
        SurvivesHigh(id);
      } else if PutBE32(id)[1] != 0 {
        SurvivesLow(id);
      } else {
        SurvivesZero();
      }
      WindowShows(Deleted(data, id).value, 0, id);
      assert Member(Deleted(data, id).value, id);
    }
  }

  // ----- when the operations succeed ---------------------------------------------------------------

  /** The four-byte number at offset i, high byte first. */
  function NumberAt(data: Block, i: nat): int
    requires i < 32
  {
    ((data[i] as int * 256 + data[i + 1]) * 256 + data[i + 2]) * 256 + data[i + 3]
  }

  lemma WindowIsNumber(data: Block, i: nat)
    requires i < 32
    ensures Window(data, i) == NumberAt(data, i)
  {
    var w := data[i..i + 4];
    assert w[0] == data[i] && w[1] == data[i + 1] && w[2] == data[i + 2] && w[3] == data[i + 3];
  }

  /** Members are the numbers at the offsets 0 to 31. */
  lemma MemberMeans(data: Block, id: uint32)
    ensures Member(data, id) <==> exists i :: 0 <= i < 32 && NumberAt(data, i) == id
  {
    hide Window, NumberAt;
    forall i | 0 <= i < 32 ensures Window(data, i) == NumberAt(data, i) { WindowIsNumber(data, i); }
  }

  lemma {:induction false} DeletingFinds(data: Block, n: nat, id: uint32)
    requires n <= WINDOWS
    ensures var (d, ok) := Deleting(data, n, id);
      && (ok <==> exists k :: 0 <= k < n && Window(data, k) == id)
      && (!ok ==> d == data)
  {
    hide Window, PutAt;
    if n > 0 { DeletingFinds(data, n - 1, id); }
  }

  /** A deletion succeeds exactly for members. */
  lemma DeletedExactlyMembers(data: Block, id: uint32)
    ensures Deleted(data, id).Some? <==> Member(data, id)
  {
    DeletingFinds(data, WINDOWS, id);
  }

  /** An addition succeeds exactly if some window is empty and none before it shows the id; the id 0
      cannot be added. */
  lemma AddedExactlyWhen(data: Block, id: uint32)
    ensures Added(data, id).Some? <==>
      && id != 0
      && exists i :: 0 <= i < WINDOWS && Window(data, i) == 0 && forall k :: 0 <= k < i ==> Window(data, k) != id
  {
    hide Window, PutAt;
    var r := FirstFit(data, 0, id);
    if i :| 0 <= i < WINDOWS && Window(data, i) == 0 && forall k :: 0 <= k < i ==> Window(data, k) != id {
      assert r <= i;
    }
  }

  // ----- sets that keep to multiples of four -------------------------------------------------------

  /** The numbers at the multiples of four. */
  function Slots(data: Block): (s: seq<uint32>)
    ensures |s| == 32
  {
    seq(32, s requires 0 <= s < 32 => GetBE32(data[4 * s..4 * s + 4]))
  }

  /** Every slot is empty or holds an id whose lowest byte is not zero. */
  ghost predicate Aligned(data: Block) {
    forall s :: 0 <= s < 32 ==> Slots(data)[s] == 0 || data[4 * s + 3] != 0
  }

  /** In an aligned set the first empty window is an empty slot. */
  lemma EmptyWindowIsSlot(data: Block, i: nat)
    requires Aligned(data) && i < WINDOWS && Window(data, i) == 0
    ensures i % 4 == 0 || Window(data, i / 4 * 4) == 0
    ensures Slots(data)[i / 4] == 0
  {
  }

  lemma SlotIsWindow(data: Block, s: nat)
    requires s < 8
    ensures Slots(data)[s] == Window(data, 4 * s)
  {
  }

  lemma SlotAfter(data: Block, s: nat, id: uint32, r: nat)
    requires s < 8 && r < 32
    ensures Slots(PutAt(data, 4 * s, id))[r] == (if r == s then id else Slots(data)[r])
    ensures PutAt(data, 4 * s, id)[4 * r + 3] == (if r == s then id % 0x100 else data[4 * r + 3])
  {
    var data' := PutAt(data, 4 * s, id);
    PutBytes(data, 4 * s, id);
    assert PutBE32(id)[3] == id % 0x100;
    hide PutAt, PutBE32, GetBE32;
    if r == s {
      SlotIsWindow(data', s);
    } else {
      assert data'[4 * r..4 * r + 4] == data[4 * r..4 * r + 4];
    }
  }

  lemma SlotWritten(data: Block, s: nat, id: uint32)
    requires s < 8 && id % 0x100 != 0 && Aligned(data)
    ensures Slots(PutAt(data, 4 * s, id)) == Slots(data)[s := id]
    ensures Aligned(PutAt(data, 4 * s, id))
  {
    hide PutAt, Slots, PutBE32, GetBE32;
    var data' := PutAt(data, 4 * s, id);
    forall r | 0 <= r < 32
      ensures Slots(data')[r] == (if r == s then id else Slots(data)[r])
      ensures Slots(data')[r] == 0 || data'[4 * r + 3] != 0
    {
      SlotAfter(data, s, id, r);
    }
  }

  /** In an aligned set an addition fills the first empty slot, one of the first eight, and keeps
      the set aligned; it is refused exactly if some window before that slot shows the id already,
      or all eight slots are taken. */
  lemma AddFillsFirstSlot(data: Block, id: uint32, s: nat)
    requires Aligned(data) && id % 0x100 != 0 && s < 8
    requires Slots(data)[s] == 0 && forall r :: 0 <= r < s ==> Slots(data)[r] != 0
    ensures Added(data, id).None? <==> exists i :: 0 <= i < 4 * s && Window(data, i) == id
    ensures Added(data, id).Some? ==>
      Slots(Added(data, id).value) == Slots(data)[s := id] && Aligned(Added(data, id).value)
  {
    SlotIsWindow(data, s);
    var i := FirstFit(data, 0, id);
    forall j | 0 <= j < 4 * s ensures Window(data, j) != 0 {
      if Window(data, j) == 0 { EmptyWindowIsSlot(data, j); }
    }
    hide Slots, Window, Aligned;
    assert i <= 4 * s;
    if Added(data, id).Some? {
      assert i == 4 * s;
      SlotWritten(data, s, id);
    }
  }

  /** With its eight reachable slots taken, an aligned set accepts nothing. */
  lemma FullSetRefuses(data: Block, id: uint32)
    requires Aligned(data) && forall r :: 0 <= r < 8 ==> Slots(data)[r] != 0
    ensures Added(data, id).None?
  {
    forall j | 0 <= j < WINDOWS ensures Window(data, j) != 0 {
      if Window(data, j) == 0 { EmptyWindowIsSlot(data, j); }
    }
    hide Slots, Window, Aligned;
  }

  // ----- in place ----------------------------------------------------------------------------------

  method ReadWindow(data: array<byte>, i: nat) returns (no: uint32)
    requires data.Length == 128 && i < WINDOWS
    ensures no == Window(data[..], i)
  {
    no := GetBE32([data[i], data[i + 1], data[i + 2], data[i + 3]]);
    assert data[..][i..i + 4] == [data[i], data[i + 1], data[i + 2], data[i + 3]];
  }

  method WriteWindow(data: array<byte>, i: nat, id: uint32)
    requires data.Length == 128 && i < WINDOWS
    modifies data
    ensures data[..] == PutAt(old(data[..]), i, id)
  {
    var b := PutBE32(id);
    hide PutBE32;
    data[i], data[i + 1] := b[0], b[1];
    data[i + 2], data[i + 3] := b[2], b[3];
  }

  /** The loop of bind_add_remove_objfromset.  Where the source returns early the result is
      refused. */
  method AddRemove(data: array<byte>, id: uint32, delete: bool) returns (ok: bool)
    requires data.Length == 128
    modifies data
    ensures var was := old(data[..]);
      var now := if delete then Deleted(was, id) else Added(was, id);
      (ok <==> now.Some?) && (ok ==> data[..] == now.value)
  {
    hide Window, PutAt;
    ghost var was: Block := data[..];
    ok := false;
    var i := 0;
    while i < 128 / 4
      invariant 0 <= i <= WINDOWS
      invariant delete ==> Deleting(was, i, id) == (data[..], ok)
      invariant !delete && !ok ==> data[..] == was && FirstFit(was, 0, id) == FirstFit(was, i, id)
      invariant !delete && ok ==> Added(was, id) == Some(data[..])
    {
      var no := ReadWindow(data, i);
      if delete {
        if no == id {
          WriteWindow(data, i, 0);
          ok := true;
        }
      } else {
        if no == id && !ok {
          return false;
        }
        if no == 0 && !ok {
          WriteWindow(data, i, id);
          ok := true;
        }
      }
      i := i + 1;
    }
  }

  /** The loop of bind_is_objinset. */
  method InSet(data: Block, id: uint32) returns (found: bool)
    ensures found <==> Member(data, id)
  {
    var i := 0;
    while i < 128 / 4
      invariant 0 <= i <= WINDOWS
      invariant forall k :: 0 <= k < i ==> Window(data, k) != id
    {
      if GetBE32(data[i..i + 4]) == id {
        assert Window(data, i) == id;
        return true;
      }
      i := i + 1;
    }
    return false;
  }

  // ----- on the bindery ----------------------------------------------------------------------------

  /** Adding or deleting a member of a set property; denied says that the access check, which
      is not part of this model, refuses the connection. */
  function ChangeSet(st: Store, typ: uint16, name: CString, prop: CString, memType: uint16, memName: CString,
                     delete: bool, denied: bool): (Store, byte)
  {
    var o, m := FindObject(st.objs, name, typ), FindObject(st.objs, memName, memType);
    if o == |st.objs| then (st, NOSUCHOBJECT)
    else
      var x := st.objs[o].id;
      var k := FindNamed(st.props, x, prop);
      if k == |st.props| then (st, NOSUCHPROPERTY)
      else if denied then (st, SECURITY)
      else if m == |st.objs| then (st, NOSUCHOBJECT)
      else
        var j := Find(st.vals, st.props[k].body.valueId);
        if j == |st.vals| then (st, NOSUCHPROPERTY)
        else
          var id, data := st.objs[m].id, st.vals[j].body.data;
          var now := if delete then Deleted(data, id) else Added(data, id);
          if now.None? then (st, IOERROR) else U.WriteProp(st, x, prop, 1, 0, now.value)
  }

  /** Whether an object, by name, is in a set property of an object, by name. */
  function TestSet(st: Store, typ: uint16, name: CString, prop: CString, memType: uint16, memName: CString,
                   denied: bool): byte
  {
    var o, m := FindObject(st.objs, name, typ), FindObject(st.objs, memName, memType);
    if o == |st.objs| then NOSUCHOBJECT
    else
      var k := FindNamed(st.props, st.objs[o].id, prop);
      if k == |st.props| then NOSUCHPROPERTY
      else if denied then SECURITY
      else if m == |st.objs| then NOSUCHOBJECT
      else
        var j := Find(st.vals, st.props[k].body.valueId);
        if j == |st.vals| then NOSUCHPROPERTY
        else if Member(st.vals[j].body.data, st.objs[m].id) then OK
        else NOSUCHMEMBER
  }

  lemma SamePlace<B>(file: seq<Record<B>>, j: nat, r: Record<B>)
    requires j < |file| && j == Find(file, file[j].id) && r.id == file[j].id
    ensures Find(file[j := r], r.id) == j
  {
  }

  /** After a successful addition the test finds the member; after a successful deletion it does
      not, if the member's id is safe. */
  lemma ChangeThenTest(st: Store, typ: uint16, name: CString, prop: CString, memType: uint16, memName: CString,
                       delete: bool)
    requires ChangeSet(st, typ, name, prop, memType, memName, delete, false).1 == OK
    ensures var st' := ChangeSet(st, typ, name, prop, memType, memName, delete, false).0;
      var test := TestSet(st', typ, name, prop, memType, memName, false);
      var m := FindObject(st.objs, memName, memType);
      && m < |st.objs|
      && (!delete ==> test == OK)
      && (delete && SafeToDelete(st.objs[m].id) ==> test == NOSUCHMEMBER)
  {
    hide Deleted, Added, Member, FindObject, FindNamed;
    var st' := ChangeSet(st, typ, name, prop, memType, memName, delete, false).0;
    var o, m := FindObject(st.objs, name, typ), FindObject(st.objs, memName, memType);
    var k := FindNamed(st.props, st.objs[o].id, prop);
    var j := Find(st.vals, st.props[k].body.valueId);
    var id, data := st.objs[m].id, st.vals[j].body.data;
    if delete { DeletedIsGoneExactlyWhen(id); } else { AddedIsMember(data, id); }
    SamePlace(st.vals, j, st'.vals[j]);
  }

  lemma ObjectSeen(st: Store, o: nat)
    requires WF(st) && o < |st.objs|
    ensures st.objs[o].id in ViewOf(st)
  {
    FindUnique(st.objs, o);
    hide Linked;
  }

  /** The outcome of a change and of a test on a property that both get to. */
  ghost predicate Outcome(data: Block, id: uint32, delete: bool, code: byte, test: byte) {
    && (code == 0 || code == 0xff) && (code == 0 <==> if delete then Deleted(data, id).Some? else Added(data, id).Some?)
    && (test == 0 || test == 0xea) && (test == 0 <==> Member(data, id))
  }

  /** In which cases the two operations answer what: no such object, no such property, refused by
      the access check, no such member object, and only then the outcome on the data.  A change
      that does not succeed leaves the files alone. */
  lemma SetAnswers(st: Store, typ: uint16, name: CString, prop: CString, memType: uint16, memName: CString,
                   delete: bool, denied: bool)
    requires WF(st) && |name| <= 47 && |memName| <= 47
    ensures var (st', code) := ChangeSet(st, typ, name, prop, memType, memName, delete, denied);
      var test := TestSet(st, typ, name, prop, memType, memName, denied);
      && (code != 0 ==> st' == st)
      && if !Occupied(ViewOf(st), name, typ) then code == test == 0xfc
         else
           var o, m := FindObject(st.objs, name, typ), FindObject(st.objs, memName, memType);
           && o < |st.objs| && st.objs[o].id in ViewOf(st)
           && var ps := ViewOf(st)[st.objs[o].id].properties;
           var i := Lookup(ps, Clip(prop, 15));
           if i == |ps| then code == test == 0xfb
           else if denied then code == test == 0xf1
           else if !Occupied(ViewOf(st), memName, memType) then code == test == 0xfc
           else m < |st.objs| && Outcome(ps[i].data, st.objs[m].id, delete, code, test)
  {
    hide Deleted, Added, Member, FindObject, FindNamed, IsObject, IsNamed, Linked, HeapOf, UniqueIds, Contents;
    hide Lookup, Occupied, ViewOf;
    ObjectInView(st, name, typ);
    ObjectInView(st, memName, memType);
    var o := FindObject(st.objs, name, typ);
    if o < |st.objs| {
      var x := st.objs[o].id;
      ObjectSeen(st, o);
      FlatScanIsChainScan(st, x, prop);
      U.ReadPropRefines(st, x, prop);
    }
  }

  method AddRemoveObjFromSet(b: Bindery, typ: uint16, name: CString, prop: CString, memType: uint16,
                             memName: CString, delete: bool, denied: bool) returns (code: byte)
    modifies b
    ensures (b.State(), code) == ChangeSet(old(b.State()), typ, name, prop, memType, memName, delete, denied)
  {
    hide Deleted, Added, FindObject, FindNamed, Find, IsObject, IsNamed, U.WriteProp;
    var obj := b.ScanObject(name, typ);
    if obj.None? {
      return NOSUCHOBJECT;
    }
    var rec := b.ScanProp(obj.value.id, prop);
    if rec.None? {
      return NOSUCHPROPERTY;
    }
    if denied {
      return SECURITY;
    }
    var mem := b.ScanObject(memName, memType);
    if mem.None? {
      return NOSUCHOBJECT;
    }
    var val := b.ScanVal(rec.value.body.valueId);
    if val.None? {
      return NOSUCHPROPERTY;
    }
    var data := new byte[128](i requires 0 <= i < 128 => val.value.body.data[i]);
    assert data[..] == val.value.body.data;
    var ok := AddRemove(data, mem.value.id, delete);
    if !ok {
      return IOERROR;
    }
    code := b.WriteProp(obj.value.id, prop, 1, 0, data[..]);
  }

  method IsObjInSet(b: Bindery, typ: uint16, name: CString, prop: CString, memType: uint16, memName: CString,
                    denied: bool) returns (code: byte)
    modifies b`objPos, b`propPos, b`valPos
    ensures code == TestSet(b.State(), typ, name, prop, memType, memName, denied)
  {
    hide Member, FindObject, FindNamed, Find, IsObject, IsNamed;
    var obj := b.ScanObject(name, typ);
    if obj.None? {
      return NOSUCHOBJECT;
    }
    var rec := b.ScanProp(obj.value.id, prop);
    if rec.None? {
      return NOSUCHPROPERTY;
    }
    if denied {
      return SECURITY;
    }
    var mem := b.ScanObject(memName, memType);
    if mem.None? {
      return NOSUCHOBJECT;
    }
    var val := b.ScanVal(rec.value.body.valueId);
    if val.None? {
      return NOSUCHPROPERTY;
    }
    var found := InSet(val.value.body.data, mem.value.id);
    return if found then OK else NOSUCHMEMBER;
  }
}
