/** The bindery files with their cursors: scans move a cursor, updates patch the record before
    it or append at the end, exactly as the statements of binderyio.c do.  Every method is
    proved to have the effect that BinderyStore, BinderyUpdate and BinderyDelete define. */
module BinderyFiles {
  import opened Bytes
  import opened RecordFiles
  import opened BinderyHeap
  import opened BinderyStore
  import S = BinderyStore
  import U = BinderyUpdate
  import D = BinderyDelete
  import W = BinderyAsWritten
  import C = BinderyScan

  lemma NotNil(h: Heap, q: uint32)
    requires Linked(h) && q in h.props
    ensures q != NIL
  {
  }

  /** The record at position pos of the chain of x, and where its link leads. */
  lemma ChainStep(st: Store, x: uint32, pos: nat)
    requires WF(st) && HasChain(HeapOf(st), x) && pos < |st.lists[x]|
    ensures var k := Find(st.props, st.lists[x][pos]);
      && k < |st.props| && st.props[k].body.objectId == x
      && st.props[k].body.nextId == At(st.lists[x], pos + 1)
      && st.lists[x][pos] != NIL
  {
    D.DeletionFinds(st, x, pos, st.lists[x][pos]);
    NotNil(HeapOf(st), st.lists[x][pos]);
  }

  /** The object record found by a scan starts the chain of the object. */
  lemma ObjectChain(st: Store, x: uint32)
    requires WF(st) && Find(st.objs, x) < |st.objs|
    ensures HasChain(HeapOf(st), x)
    ensures var head := st.objs[Find(st.objs, x)].body.propId;
      && (head == NIL <==> st.lists[x] == [])
      && (head != NIL ==> head == st.lists[x][0])
  {
    hide Linked;
    LinkedChain(HeapOf(st), x);
    EmptyChain(HeapOf(st), x);
  }

  /** Searches for the ids of list succeed and lead from each to the next, and none finds NIL. */
  ghost predicate Walkable(props: seq<PropRecord>, list: seq<uint32>) {
    && Find(props, NIL) == |props|
    && forall pos {:trigger Find(props, list[pos])} :: 0 <= pos < |list| ==>
      var k := Find(props, list[pos]);
      k < |props| && props[k].body.nextId == At(list, pos + 1)
  }

  lemma ChainWalkable(st: Store, x: uint32)
    requires WF(st) && HasChain(HeapOf(st), x)
    ensures Walkable(st.props, st.lists[x])
  {
  }

  lemma StartOfChain(st: Store, i: nat)
    requires WF(st) && i < |st.objs|
    ensures HasChain(HeapOf(st), st.objs[i].id)
    ensures st.objs[i].body.propId == At(st.lists[st.objs[i].id], 0)
    ensures Walkable(st.props, st.lists[st.objs[i].id])
  {
    FindUnique(st.objs, i);
    ObjectChain(st, st.objs[i].id);
    ChainWalkable(st, st.objs[i].id);
  }

  lemma WalkableAppend(props: seq<PropRecord>, list: seq<uint32>, r: PropRecord)
    requires Walkable(props, list) && r.id != NIL
    ensures Walkable(props + [r], list)
    ensures list != [] ==> Find(props + [r], list[|list| - 1]) == Find(props, list[|list| - 1])
  {
    forall pos | 0 <= pos < |list| ensures Find(props + [r], list[pos]) == Find(props, list[pos]) {
      FindAppend(props, r, list[pos]);
    }
    assert forall j :: 0 <= j <= |props| ==> (props + [r])[j].id == if j < |props| then props[j].id else r.id;
  }

  lemma AppendMeans(st: Store, x: uint32, q: uint32, p: PropBody, data: Block)
    requires WF(st) && Find(st.objs, x) < |st.objs|
    ensures x in st.lists
    ensures var i, list, st' := Find(st.objs, x), st.lists[x], S.Append(st, x, q, p, data);
      && st'.vals == st.vals + [Record(p.valueId, ValBody(q, NIL, 0x100, data))]
      && st'.lists == st.lists[x := list + [q]]
      && if st.objs[i].body.propId == NIL then
           && st'.objs == st.objs[i := st.objs[i].(body := st.objs[i].body.(propId := q))]
           && st'.props == st.props + [Record(q, p)]
         else
           && list != [] && st'.objs == st.objs
           && st'.props == SetNext(st.props + [Record(q, p)], list[|list| - 1], q)
  {
    hide WF, Linked, UniqueIds, Contents, Chain, SetNext;
    ObjectChain(st, x);
  }

  /** All that Append needs to know of the files it starts from. */
  lemma AppendReady(st: Store, x: uint32, q: uint32, p: PropBody, data: Block)
    requires WF(st) && Find(st.objs, x) < |st.objs| && q != NIL
    ensures x in st.lists
    ensures var i, list, st' := Find(st.objs, x), st.lists[x], S.Append(st, x, q, p, data);
      && st'.vals == st.vals + [Record(p.valueId, ValBody(q, NIL, 0x100, data))]
      && st'.lists == st.lists[x := list + [q]]
      && if st.objs[i].body.propId == NIL then
           && st'.objs == st.objs[i := st.objs[i].(body := st.objs[i].body.(propId := q))]
           && st'.props == st.props + [Record(q, p)]
         else
           && list != [] && st'.objs == st.objs
           && st.objs[i].body.propId == list[0]
           && Walkable(st.props + [Record(q, p)], list)
           && st'.props == SetNext(st.props + [Record(q, p)], list[|list| - 1], q)
  {
    hide WF, Linked, UniqueIds, Contents, HeapOf, Chain, HasChain, S.Append, SetNext, Walkable, Find;
    AppendMeans(st, x, q, p, data);
    ObjectChain(st, x);
    ChainWalkable(st, x);
    WalkableAppend(st.props, st.lists[x], Record(q, p));
  }

  lemma SetNextMeans(props: seq<PropRecord>, last: uint32, next: uint32)
    requires Find(props, last) < |props|
    ensures var t := Find(props, last);
      SetNext(props, last, next) == props[t := props[t].(body := props[t].body.(nextId := next))]
  {
  }

  /** The chain of object x, known to the view, starts with first. */
  ghost predicate Deletable(st: Store, x: uint32, first: uint32) {
    WF(st) && x in ViewOf(st) && x in st.lists && first == At(st.lists[x], 0)
  }

  lemma ReadyToDelete(st: Store, x: uint32)
    requires WF(st)
    ensures var i := Find(st.objs, x);
      if i == |st.objs| then D.DeleteObject(st, x) == (st, NOSUCHOBJECT)
      else
        && Deletable(st, x, st.objs[i].body.propId)
        && var st' := D.DeleteChain(st, x);
        && |st'.objs| == |st.objs|
        && D.DeleteObject(st, x) == (Store(SwapRemove(st'.objs, i), st'.props, st'.vals, st'.lists - {x}), OK)
  {
    D.InView(st, x);
    if Find(st.objs, x) < |st.objs| {
      ObjectChain(st, x);
      D.DeleteChainEmpties(st, x);
    }
  }

  lemma FirstIsNil(st: Store, x: uint32)
    requires WF(st) && x in ViewOf(st) && x in st.lists
    ensures At(st.lists[x], 0) == NIL ==> st.lists[x] == []
  {
  }

  class Bindery {
    var netObj: seq<ObjRecord>
    var netProp: seq<PropRecord>
    var netVal: seq<ValRecord>
    var objPos: nat
    var propPos: nat
    var valPos: nat
    ghost var lists: Lists

    ghost function State(): Store
      reads this
    {
      Store(netObj, netProp, netVal, lists)
    }

    ghost predicate Valid()
      reads this
    {
      WF(State())
    }

    /** bindio_truncate on freshly opened files. */
    constructor ()
      ensures Valid() && State() == Store([], [], [], map[])
    {
      netObj, netProp, netVal := [], [], [];
      objPos, propPos, valPos := 0, 0, 0;
      lists := map[];
    }

    // ----- scans ----------------------------------------------------------------------

    method ScanObject(name: CString, typ: uint16) returns (r: Option<ObjRecord>)
      modifies `objPos
      ensures var i := FindObject(netObj, name, typ);
        if i < |netObj| then r == Some(netObj[i]) && objPos == i + 1 else r == None && objPos == |netObj|
    {
      hide IsObject;
      objPos := 0;
      while objPos < |netObj|
        invariant objPos <= |netObj|
        invariant forall j :: 0 <= j < objPos ==> !IsObject(netObj[j].body, name, typ)
      {
        var rec := netObj[objPos];
        objPos := objPos + 1;
        if IsObject(rec.body, name, typ) {
          return Some(rec);
        }
      }
      return None;
    }

    method ScanObjectById(x: uint32) returns (r: Option<ObjRecord>)
      modifies `objPos
      ensures var i := Find(netObj, x);
        if i < |netObj| then r == Some(netObj[i]) && objPos == i + 1 else r == None && objPos == |netObj|
    {
      objPos := 0;
      while objPos < |netObj|
        invariant objPos <= |netObj|
        invariant forall j :: 0 <= j < objPos ==> netObj[j].id != x
      {
        var rec := netObj[objPos];
        objPos := objPos + 1;
        if rec.id == x {
          return Some(rec);
        }
      }
      return None;
    }

    /** Serves both bindio_prop_seek and bindio_scan_propid, whose statements are the same. */
    method PropSeek(q: uint32) returns (r: Option<PropRecord>)
      modifies `propPos
      ensures var i := Find(netProp, q);
        if i < |netProp| then r == Some(netProp[i]) && propPos == i + 1 else r == None && propPos == |netProp|
    {
      propPos := 0;
      while propPos < |netProp|
        invariant propPos <= |netProp|
        invariant forall j :: 0 <= j < propPos ==> netProp[j].id != q
      {
        var rec := netProp[propPos];
        propPos := propPos + 1;
        if rec.id == q {
          return Some(rec);
        }
      }
      return None;
    }

    method ScanPropNextId(q: uint32) returns (r: Option<PropRecord>)
      modifies `propPos
      ensures var i := FindNext(netProp, q);
        if i < |netProp| then r == Some(netProp[i]) && propPos == i + 1 else r == None && propPos == |netProp|
    {
      propPos := 0;
      while propPos < |netProp|
        invariant propPos <= |netProp|
        invariant forall j :: 0 <= j < propPos ==> netProp[j].body.nextId != q
      {
        var rec := netProp[propPos];
        propPos := propPos + 1;
        if rec.body.nextId == q {
          return Some(rec);
        }
      }
      return None;
    }

    method ScanProp(x: uint32, name: CString) returns (r: Option<PropRecord>)
      modifies `propPos
      ensures var i := FindNamed(netProp, x, name);
        if i < |netProp| then r == Some(netProp[i]) && propPos == i + 1 else r == None && propPos == |netProp|
    {
      propPos := 0;
      while propPos < |netProp|
        invariant propPos <= |netProp|
        invariant forall j :: 0 <= j < propPos ==> !IsNamed(netProp[j].body, x, name)
      {
        var rec := netProp[propPos];
        propPos := propPos + 1;
        if IsNamed(rec.body, x, name) {
          return Some(rec);
        }
      }
      return None;
    }

    method ScanVal(v: uint32) returns (r: Option<ValRecord>)
      modifies `valPos
      ensures var i := Find(netVal, v);
        if i < |netVal| then r == Some(netVal[i]) && valPos == i + 1 else r == None && valPos == |netVal|
    {
      valPos := 0;
      while valPos < |netVal|
        invariant valPos <= |netVal|
        invariant forall j :: 0 <= j < valPos ==> netVal[j].id != v
      {
        var rec := netVal[valPos];
        valPos := valPos + 1;
        if rec.id == v {
          return Some(rec);
        }
      }
      return None;
    }

    method ScanObjectWild(name: CString, typ: uint16, last: uint32) returns (r: Option<ObjRecord>)
      modifies `objPos
      ensures r == C.ScanWild(netObj, name, typ, last)
    {
      hide C.Selected;
      if last != NIL {
        var found := ScanObjectById(last);
        if found.None? {
          return None;
        }
      } else {
        objPos := 0;
      }
      ghost var from := objPos;
      while objPos < |netObj|
        invariant from <= objPos <= |netObj|
        invariant C.NextSelected(netObj, from, name, typ) == C.NextSelected(netObj, objPos, name, typ)
      {
        var rec := netObj[objPos];
        objPos := objPos + 1;
        if C.Selected(rec.body, name, typ) {
          return Some(rec);
        }
      }
      return None;
    }

    // ----- updates ----------------------------------------------------------------------

    /** x stands for the number drawn by random (). */
    method AddObject(name: CString, typ: uint16, flags: byte, security: byte, x: uint32) returns (reply: Reply)
      requires Valid() && |name| <= 47 && x < 0x8000_0000
      modifies this
      ensures (State(), reply) == S.AddObject(old(State()), name, typ, flags, security, x)
    {
      hide WF, ViewOf, NewObject, IsObject, ObjName;
      var found := ScanObject(name, typ);
      if found.Some? {
        return Failed(OBJEXISTS);
      }
      netObj := netObj + [Record(x, NewObject(name, typ, flags, security))];
      objPos := |netObj|;
      lists := lists[x := []];
      return Done(x);
    }

    /** Follow the links from head to the last property; leaves the cursor behind it. */
    method WalkToEnd(ghost list: seq<uint32>, head: uint32) returns (proprec: PropRecord)
      requires Walkable(netProp, list) && list != [] && head == list[0]
      modifies `propPos
      ensures var k := Find(netProp, list[|list| - 1]);
        k < |netProp| && propPos == k + 1 && proprec == netProp[k]
    {
      var next := head;
      ghost var pos := 0;
      var found := PropSeek(next);
      proprec := found.value;
      while found.Some?
        invariant pos < |list| && found.Some? && next == list[pos]
        invariant var k := Find(netProp, next); k < |netProp| && propPos == k + 1 && found.value == netProp[k]
        decreases |list| - pos
      {
        proprec := found.value;
        next := proprec.body.nextId;
        if next == NIL {
          break;
        }
        pos := pos + 1;
        found := PropSeek(next);
      }
    }

    /** Patch the link of the last property that the chain from head reaches. */
    method LinkLast(ghost list: seq<uint32>, head: uint32, q: uint32)
      requires Walkable(netProp, list) && list != [] && head == list[0]
      modifies `netProp, `propPos
      ensures netProp == SetNext(old(netProp), list[|list| - 1], q)
    {
      var last := WalkToEnd(list, head);
      SetNextMeans(netProp, list[|list| - 1], q);
      netProp := netProp[propPos - 1 := last.(body := last.body.(nextId := q))];
    }

    /** Add both records at the end of their files and link the property to the object, whose
        record was read last. */
    method Append(x: uint32, obj: ObjRecord, q: uint32, p: PropBody, data: Block)
      requires Valid() && Find(netObj, x) < |netObj| && obj == netObj[Find(netObj, x)] && objPos == Find(netObj, x) + 1
      requires q != NIL
      modifies this
      ensures State() == S.Append(old(State()), x, q, p, data)
    {
      hide WF, Linked, UniqueIds, Contents, HeapOf, Chain, HasChain, S.Append, SetNext, Walkable, Find;
      ghost var st := State();
      AppendReady(st, x, q, p, data);
      ghost var list := lists[x];
      netProp := netProp + [Record(q, p)];
      netVal := netVal + [Record(p.valueId, ValBody(q, NIL, 0x100, data))];
      propPos, valPos := |netProp|, |netVal|;
      lists := lists[x := list + [q]];
      if obj.body.propId == NIL {
        netObj := netObj[objPos - 1 := obj.(body := obj.body.(propId := q))];
      } else {
        LinkLast(list, obj.body.propId, q);
      }
    }

    /** v and q stand for the numbers drawn by random (). */
    method AddProp(x: uint32, name: CString, flags: byte, security: byte, data: Option<Block>, v: uint32, q: uint32)
      returns (reply: Reply)
      requires Valid() && |name| <= 15 && q < 0x8000_0000 && v < 0x8000_0000
      modifies this
      ensures (State(), reply) ==
              S.AddProp(old(State()), x, name, flags, security, if data.Some? then data.value else ZEROES, v, q)
    {
      hide WF, Linked, UniqueIds, IsNamed, FindNamed, Find, Contents, S.Append, HeapOf;
      var bytes := if data.Some? then data.value else ZEROES;
      var found := ScanObjectById(x);
      if found.None? {
        return Failed(NOSUCHOBJECT);
      }
      var clash := ScanProp(x, name);
      if clash.Some? {
        return Failed(PROPEXISTS);
      }
      Append(x, found.value, q, PropBody(name, flags, security, x, v, NIL), bytes);
      return Done(q);
    }

    method ReadProp(x: uint32, name: CString) returns (r: Option<Block>)
      modifies `propPos, `valPos
      ensures r == U.ReadProp(State(), x, name)
    {
      var prop := ScanProp(x, name);
      if prop.None? {
        return None;
      }
      var val := ScanVal(prop.value.body.valueId);
      if val.None? {
        return None;
      }
      return Some(val.value.body.data);
    }

    method WriteProp(x: uint32, name: CString, segno: byte, more: byte, data: Block) returns (code: byte)
      modifies this
      ensures (State(), code) == U.WriteProp(old(State()), x, name, segno, more, data)
    {
      hide IsNamed;
      var prop := ScanProp(x, name);
      if prop.None? {
        return NOSUCHPROPERTY;
      }
      if segno != 1 {
        return IOERROR;
      }
      if more != 0 {
        return IOERROR;
      }
      var val := ScanVal(prop.value.body.valueId);
      if val.None? {
        return NOSUCHPROPERTY;
      }
      netVal := netVal[valPos - 1 := val.value.(body := val.value.body.(data := data))];
      return OK;
    }

    method ChangeObject(x: uint32, newId: uint32, newName: Option<CString>) returns (code: byte)
      modifies this
      ensures (State(), code) == U.ChangeObject(old(State()), x, newId, newName)
    {
      var found := ScanObjectById(x);
      if found.None? {
        return NOSUCHOBJECT;
      }
      var rec := found.value;
      if newId != NIL {
        rec := rec.(id := newId);
      }
      if newName.Some? {
        rec := rec.(body := rec.body.(nameField := U.CopyName(rec.body.nameField, newName.value)));
      }
      netObj := netObj[objPos - 1 := rec];
      lists := if x in lists then (lists - {x})[rec.id := lists[x]] else lists;
      return OK;
    }

    // ----- deletion -----------------------------------------------------------------------

    method RemoveVal(pos: nat)
      requires pos < |netVal|
      modifies `netVal, `valPos
      ensures netVal == SwapRemove(old(netVal), pos)
    {
      var last := |netVal| - 1;
      if pos == last {
        netVal := netVal[..last];
      } else {
        netVal := netVal[pos := netVal[last]];
        netVal := netVal[..last];
      }
      valPos := pos;
    }

    method RemoveProp(pos: nat)
      requires pos < |netProp|
      modifies `netProp, `propPos
      ensures netProp == SwapRemove(old(netProp), pos)
    {
      var last := |netProp| - 1;
      if pos == last {
        propPos := 0;
        netProp := netProp[..last];
      } else {
        netProp := netProp[pos := netProp[last]];
        netProp := netProp[..last];
      }
    }

    method Unlink(x: uint32, q: uint32, next: uint32) returns (code: byte)
      modifies `netObj, `netProp, `objPos, `propPos
      ensures (netObj, netProp, code) == D.Unlink(old(netObj), old(netProp), x, q, next)
    {
      var prev := ScanPropNextId(q);
      if prev.None? {
        var obj := ScanObjectById(x);
        if obj.None? {
          return NOSUCHOBJECT;
        }
        if obj.value.body.propId == q {
          netObj := netObj[objPos - 1 := obj.value.(body := obj.value.body.(propId := next))];
        }
        return OK;
      }
      netProp := netProp[propPos - 1 := prev.value.(body := prev.value.body.(nextId := next))];
      return OK;
    }

    /** The deletion that the comments describe. */
    method DeleteProp(q: uint32) returns (code: byte)
      modifies this
      ensures (State(), code) == D.DeleteProp(old(State()), q)
    {
      hide Find, SwapRemove, D.Unlink, D.Without;
      var found := PropSeek(q);
      if found.None? {
        return NOSUCHPROPERTY;
      }
      var prop := found.value.body;
      var val := ScanVal(prop.valueId);
      if val.None? {
        return NOSUCHPROPERTY;
      }
      RemoveVal(valPos - 1);
      RemoveProp(propPos - 1);
      lists := D.Without(lists, prop.objectId, q);
      code := Unlink(prop.objectId, q, prop.nextId);
    }

    method DumpChain(ghost list: seq<uint32>, head: uint32)
      requires Walkable(netProp, list) && head == At(list, 0)
      modifies `propPos
      ensures propPos == |netProp|
    {
      ghost var pos := 0;
      var q := head;
      var found := PropSeek(q);
      while found.Some?
        invariant pos <= |list| && q == At(list, pos)
        invariant var k := Find(netProp, q);
          if k < |netProp| then found == Some(netProp[k]) else found == None && propPos == |netProp|
        decreases |list| - pos
      {
        q := found.value.body.nextId;
        pos := pos + 1;
        found := PropSeek(q);
      }
    }

    /** The debug dump walks every chain; it leaves the property cursor at the end of the file,
        because the walk of the last object ends with an unsuccessful search for NIL. */
    method Dump()
      requires Valid()
      modifies `objPos, `propPos
      ensures propPos == if netObj == [] then old(propPos) else |netProp|
    {
      ghost var st := State();
      hide WF, Walkable;
      objPos := 0;
      while objPos < |netObj|
        invariant objPos <= |netObj|
        invariant propPos == if objPos == 0 then old(propPos) else |netProp|
      {
        var obj := netObj[objPos];
        StartOfChain(st, objPos);
        objPos := objPos + 1;
        DumpChain(lists[obj.id], obj.body.propId);
      }
    }

    method PatchPointer(x: uint32, q: uint32, next: uint32, junkProp: PropRecord, junkObj: ObjRecord)
      returns (code: byte)
      modifies `netObj, `netProp, `objPos, `propPos
      ensures var k, o := FindNext(old(netProp), q), Find(old(netObj), x);
        if k < |old(netProp)| then
          && netProp == old(netProp)[k := junkProp.(body := junkProp.body.(nextId := next))]
          && netObj == old(netObj) && code == OK
        else
          && netProp == old(netProp)
          && if o == |old(netObj)| then netObj == old(netObj) && code == NOSUCHOBJECT
             else if old(netObj)[o].body.propId == q then
               netObj == old(netObj)[o := junkObj.(body := junkObj.body.(propId := next))] && code == OK
             else netObj == old(netObj) && code == OK
    {
      var prev := ScanPropNextId(q);
      if prev.None? {
        var obj := ScanObjectById(x);
        if obj.None? {
          return NOSUCHOBJECT;
        }
        if obj.value.body.propId == q {
          netObj := netObj[objPos - 1 := junkObj.(body := junkObj.body.(propId := next))];
        }
        return OK;
      }
      netProp := netProp[propPos - 1 := junkProp.(body := junkProp.body.(nextId := next))];
      return OK;
    }

    /** What the statements of bindio_delete_prop do; junkProp and junkObj stand for the
        unassigned local records.  The second debug dump is left out: the cursors it moves are
        set again before they are read. */
    method DeletePropAsWritten(q: uint32, junkProp: PropRecord, junkObj: ObjRecord) returns (code: byte)
      requires Valid()
      modifies this
      ensures (State(), code) == W.DeletePropAsWritten(old(State()), q, junkProp, junkObj)
    {
      hide WF, FindNext, SwapRemove, Find;
      var found := PropSeek(q);
      if found.None? {
        return NOSUCHPROPERTY;
      }
      var prop := found.value.body;
      Dump();
      var val := ScanVal(prop.valueId);
      if val.None? {
        return NOSUCHPROPERTY;
      }
      var pos, last := valPos - 1, |netVal| - 1;
      if pos == last {
        netVal := netVal[..last];
      } else {
        netVal := netVal[pos := netVal[last]];
      }
      RemoveProp(propPos - 1);
      lists := D.Without(lists, prop.objectId, q);
      code := PatchPointer(prop.objectId, q, prop.nextId, junkProp, junkObj);
    }

    method RemoveObj(pos: nat, ghost x: uint32)
      requires pos < |netObj|
      modifies `netObj, `objPos, `lists
      ensures netObj == SwapRemove(old(netObj), pos) && lists == old(lists) - {x}
    {
      lists := lists - {x};
      var last := |netObj| - 1;
      objPos := 0;
      if pos == last {
        netObj := netObj[..pos];
      } else {
        netObj := netObj[pos := netObj[last]];
        netObj := netObj[..last];
      }
    }

    /** Delete the properties of object x, from the first one to the end of the chain.  A
        failing deletion would be reported; on valid files none fails. */
    method DeleteProps(x: uint32, first: uint32) returns (code: byte)
      requires Deletable(State(), x, first)
      modifies this
      ensures State() == D.DeleteChain(old(State()), x) && code == OK
    {
      ghost var st := State();
      hide WF, ViewOf, HasChain;
      code := OK;
      var q := first;
      while q != NIL
        invariant Deletable(State(), x, q)
        invariant D.DeleteChain(State(), x) == D.DeleteChain(st, x) && code == OK
        decreases |lists[x]|
      {
        ghost var now := State();
        D.InView(now, x);
        D.DeleteFirst(now, x);
        ChainStep(now, x, 0);
        hide D.DeleteProp;
        var prop := PropSeek(q);
        if prop.None? { break; }
        code := DeleteProp(q);
        if code != OK { return; }
        q := prop.value.body.nextId;
        assert lists[x] == now.lists[x][1..];
      }
      FirstIsNil(State(), x);
    }

    method DeleteObject(x: uint32) returns (code: byte)
      requires Valid()
      modifies this
      ensures (State(), code) == D.DeleteObject(old(State()), x)
    {
      hide WF, Linked, UniqueIds, Contents, HeapOf, ViewOf, HasChain, D.DeleteChain, D.DeleteObject;
      hide SwapRemove, Find, Deletable;
      ReadyToDelete(State(), x);
      var found := ScanObjectById(x);
      if found.None? {
        return NOSUCHOBJECT;
      }
      var pos := objPos - 1;
      code := DeleteProps(x, found.value.body.propId);
      if code != OK {
        return;
      }
      RemoveObj(pos, x);
      return OK;
    }
  }
}
