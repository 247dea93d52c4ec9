/** What the statements of bindio_delete_prop do, as opposed to its comments.

    Three slips separate the two.  The debug dump before the deletion leaves the property
    cursor at the end of the file, so that the "current" record is always the last one.  The
    value file is not cut after its last record was copied into the hole.  And the record
    that pointed at the deleted property is overwritten by a local record of which only the
    link field was ever assigned; its other bytes are a parameter here (junk). */
module BinderyAsWritten {
  import opened Bytes
  import opened RecordFiles
  import opened BinderyHeap
  import opened BinderyStore
  import D = BinderyDelete
  import opened BinderyDelete

  function LeakyRemove(vals: seq<ValRecord>, j: nat): seq<ValRecord>
    requires j < |vals|
  {
    var last := |vals| - 1;
    if j == last then vals[..last] else vals[j := vals[last]]
  }

  function DeletePropAsWritten(st: Store, q: uint32, junkProp: PropRecord, junkObj: ObjRecord): (Store, byte) {
    var i := Find(st.props, q);
    if i == |st.props| then (st, NOSUCHPROPERTY)
    else
      var p := st.props[i].body;
      var j := Find(st.vals, p.valueId);
      if j == |st.vals| then (st, NOSUCHPROPERTY)
      else
        var cursor := if st.objs == [] then i + 1 else |st.props|;
        var props := SwapRemove(st.props, cursor - 1);
        var st' := st.(vals := LeakyRemove(st.vals, j), props := props, lists := Without(st.lists, p.objectId, q));
        var k := FindNext(props, q);
        if k < |props| then
          (st'.(props := props[k := junkProp.(body := junkProp.body.(nextId := p.nextId))]), OK)
        else
          var o := Find(st.objs, p.objectId);
          if o == |st.objs| then (st', NOSUCHOBJECT)
          else if st.objs[o].body.propId == q then
            (st'.(objs := st.objs[o := junkObj.(body := junkObj.body.(propId := p.nextId))]), OK)
          else (st', OK)
  }

  predicate SameButLink(a: PropRecord, b: PropRecord) {
    a.id == b.id && a.body.(nextId := NIL) == b.body.(nextId := NIL)
  }

  predicate SameButFirst(a: ObjRecord, b: ObjRecord) {
    a.id == b.id && a.body.(propId := NIL) == b.body.(propId := NIL)
  }

  /** The place of a property of the file on its chain. */
  lemma OnSomeChain(st: Store, q: uint32) returns (x: uint32, pos: nat)
    requires WF(st) && q in Contents(st.props)
    ensures x == Contents(st.props)[q].objectId
    ensures HasChain(HeapOf(st), x) && pos < |st.lists[x]| && st.lists[x][pos] == q
  {
    PropOnChain(st, Find(st.props, q));
    hide Linked;
    x := Contents(st.props)[q].objectId;
    LinkedChain(HeapOf(st), x);
    pos := ChainPosition(st.lists[x], q);
  }

  lemma FindNextFinds(props: seq<PropRecord>, r: uint32, q: uint32)
    requires r in Contents(props) && Contents(props)[r].nextId == q
    ensures FindNext(props, q) < |props|
  {
  }

  /** The scans of a deletion find the value and the object, and q does not point at itself. */
  lemma ScansFind(st: Store, q: uint32)
    requires WF(st) && q in Contents(st.props)
    ensures var p := st.props[Find(st.props, q)].body;
      Find(st.vals, p.valueId) < |st.vals| && Find(st.objs, p.objectId) < |st.objs| && p.nextId != q
  {
    var x, pos := OnSomeChain(st, q);
    DeletionFinds(st, x, pos, q);
    PredecessorLinks(HeapOf(st), x, pos);
    OnlyPointer(HeapOf(st), x, pos);
    hide Linked, AllReadable, UniqueIds;
    assert st.props[Find(st.props, q)].body == HeapOf(st).props[q];
  }

  /** Who points at property list[pos] of h, in files that hold h without it. */
  lemma PointerLeft(h: Heap, x: uint32, pos: nat, objs: seq<ObjRecord>, rest: seq<PropRecord>)
    requires Linked(h) && HasChain(h, x) && pos < |h.lists[x]|
    requires Contents(objs) == h.objs && Contents(rest) == h.props - {h.lists[x][pos]}
    ensures Find(objs, x) < |objs|
    ensures FindNext(rest, h.lists[x][pos]) == |rest| ==> objs[Find(objs, x)].body.propId == h.lists[x][pos]
  {
    hide Linked, AllReadable;
    PredecessorLinks(h, x, pos);
    if pos > 0 {
      FindNextFinds(rest, h.lists[x][pos - 1], h.lists[x][pos]);
    }
  }

  /** Who points at q: another property, or else its object. */
  lemma PointedAt(st: Store, q: uint32)
    requires WF(st) && q in Contents(st.props)
    ensures var x := Contents(st.props)[q].objectId;
      && Find(st.objs, x) < |st.objs|
      && (FindNext(SwapRemove(st.props, Find(st.props, q)), q) == |st.props| - 1 ==>
            st.objs[Find(st.objs, x)].body.propId == q)
  {
    var x, pos := OnSomeChain(st, q);
    SwapRemoveIsRemove(st.props, Find(st.props, q));
    var rest := SwapRemove(st.props, Find(st.props, q));
    hide Linked, HasChain, UniqueIds, SwapRemove;
    PointerLeft(HeapOf(st), x, pos, st.objs, rest);
  }

  /** If the property is not the last record, the wrong record is dropped and q stays. */
  lemma WrongRecordDropped(st: Store, q: uint32, junkProp: PropRecord, junkObj: ObjRecord)
    requires UniqueIds(st.props) && st.objs != [] && Find(st.props, q) < |st.props| - 1
    requires st.props[Find(st.props, q)].body.nextId != q
    requires Find(st.vals, st.props[Find(st.props, q)].body.valueId) < |st.vals|
    ensures DeletePropAsWritten(st, q, junkProp, junkObj).0.props != D.DeleteProp(st, q).0.props
  {
    var i, last := Find(st.props, q), |st.props| - 1;
    var p := st.props[i].body;
    var j := Find(st.vals, p.valueId);
    assert st.props[i].id != st.props[last].id;
    assert SwapRemove(st.props, last)[i] == st.props[i] && SwapRemove(st.props, i)[i] == st.props[last];
    hide SwapRemove, Without, LeakyRemove;
    var written := DeletePropAsWritten(st, q, junkProp, junkObj).0.props;
    assert written[i].id == q;
    hide DeletePropAsWritten;
    var meant := D.DeleteProp(st, q).0.props;
    assert meant[i].id == st.props[last].id;
  }

  lemma ReplacedEqual<T>(s: seq<T>, i: nat, a: T, b: T)
    requires i < |s|
    ensures s[i := a] == s[i := b] <==> a == b
  {
    assert s[i := a][i] == a && s[i := b][i] == b;
  }

  /** If both records are the last ones, only the junk record can make a difference. */
  lemma JunkDecides(st: Store, q: uint32, junkProp: PropRecord, junkObj: ObjRecord)
    requires st.objs != [] && Find(st.props, q) == |st.props| - 1
    requires var p := st.props[Find(st.props, q)].body;
      && Find(st.vals, p.valueId) == |st.vals| - 1
      && Find(st.objs, p.objectId) < |st.objs|
      && (FindNext(SwapRemove(st.props, |st.props| - 1), q) == |st.props| - 1 ==>
            st.objs[Find(st.objs, p.objectId)].body.propId == q)
    ensures var rest := SwapRemove(st.props, |st.props| - 1);
      var k, o := FindNext(rest, q), Find(st.objs, st.props[Find(st.props, q)].body.objectId);
      DeletePropAsWritten(st, q, junkProp, junkObj) == D.DeleteProp(st, q) <==>
      if k < |rest| then SameButLink(junkProp, rest[k]) else SameButFirst(junkObj, st.objs[o])
  {
    var rest := SwapRemove(st.props, |st.props| - 1);
    var p := st.props[|st.props| - 1].body;
    var k, o := FindNext(rest, q), Find(st.objs, p.objectId);
    assert LeakyRemove(st.vals, |st.vals| - 1) == SwapRemove(st.vals, |st.vals| - 1);
    hide SwapRemove, Without, LeakyRemove, FindNext, Find;
    if k < |rest| {
      ReplacedEqual(rest, k, junkProp.(body := junkProp.body.(nextId := p.nextId)),
                    rest[k].(body := rest[k].body.(nextId := p.nextId)));
    } else {
      ReplacedEqual(st.objs, o, junkObj.(body := junkObj.body.(propId := p.nextId)),
                    st.objs[o].(body := st.objs[o].body.(propId := p.nextId)));
    }
  }

  lemma ValueFiles(st: Store, q: uint32, junkProp: PropRecord, junkObj: ObjRecord)
    requires Find(st.props, q) < |st.props|
    requires Find(st.vals, st.props[Find(st.props, q)].body.valueId) < |st.vals|
    ensures var j := Find(st.vals, st.props[Find(st.props, q)].body.valueId);
      && DeletePropAsWritten(st, q, junkProp, junkObj).0.vals == LeakyRemove(st.vals, j)
      && D.DeleteProp(st, q).0.vals == SwapRemove(st.vals, j)
  {
  }

  /** The statements delete what the comments say exactly when the property and its value are
      the last records of their files and the junk record happens to equal, link aside, the
      record that points at the property. */
  lemma AsWrittenMeetsIntentIff(st: Store, q: uint32, junkProp: PropRecord, junkObj: ObjRecord)
    requires WF(st) && q in Contents(st.props)
    ensures var i := Find(st.props, q);
      var rest := SwapRemove(st.props, i);
      var k, o := FindNext(rest, q), Find(st.objs, st.props[i].body.objectId);
      DeletePropAsWritten(st, q, junkProp, junkObj) == D.DeleteProp(st, q) <==>
        && i == |st.props| - 1
        && Find(st.vals, st.props[i].body.valueId) == |st.vals| - 1
        && if k < |rest| then SameButLink(junkProp, rest[k])
           else o < |st.objs| && SameButFirst(junkObj, st.objs[o])
  {
    ScansFind(st, q);
    PointedAt(st, q);
    var i := Find(st.props, q);
    var j := Find(st.vals, st.props[i].body.valueId);
    ValueFiles(st, q, junkProp, junkObj);
    hide DeletePropAsWritten, D.DeleteProp, Linked, Contents, HeapOf;
    if i != |st.props| - 1 {
      WrongRecordDropped(st, q, junkProp, junkObj);
    } else if j == |st.vals| - 1 {
      JunkDecides(st, q, junkProp, junkObj);
    }
  }

  lemma LeakyNotUnique(vals: seq<ValRecord>, j: nat)
    requires j < |vals| - 1
    ensures !UniqueIds(LeakyRemove(vals, j))
  {
    var leaky := LeakyRemove(vals, j);
    assert leaky[j].id == leaky[|vals| - 1].id;
  }

  /** Unless the value is the last record of its file, the value file keeps a second copy of its
      last record, and no lists make the result well formed. */
  lemma LeakedValue(st: Store, q: uint32, junkProp: PropRecord, junkObj: ObjRecord)
    requires WF(st) && q in Contents(st.props)
    requires Find(st.vals, st.props[Find(st.props, q)].body.valueId) < |st.vals| - 1
    ensures !WellFormed(DeletePropAsWritten(st, q, junkProp, junkObj).0)
  {
    var j := Find(st.vals, st.props[Find(st.props, q)].body.valueId);
    ValueFiles(st, q, junkProp, junkObj);
    LeakyNotUnique(st.vals, j);
    hide DeletePropAsWritten, Linked, LeakyRemove, UniqueIds;
  }

  ghost predicate NoNext(props: seq<PropRecord>, q: uint32) {
    forall a :: 0 <= a < |props| ==> props[a].body.nextId != q
  }

  /** At most one record points at property q: one property, or only the object x. */
  ghost predicate OnePointer(st: Store, x: uint32, q: uint32) {
    && (forall a, b :: 0 <= a < b < |st.props| ==> st.props[a].body.nextId != q || st.props[b].body.nextId != q)
    && (forall o :: 0 <= o < |st.objs| && st.objs[o].body.propId == q ==>
          st.objs[o].id == x && NoNext(st.props, q))
  }

  ghost predicate Unpointed(st: Store, q: uint32) {
    NoNext(st.props, q) && forall o :: 0 <= o < |st.objs| ==> st.objs[o].body.propId != q
  }

  lemma HeadIsOwn(h: Heap, x: uint32, pos: nat, y: uint32)
    requires Linked(h) && HasChain(h, x) && pos < |h.lists[x]| && y in h.objs && h.objs[y].propId == h.lists[x][pos]
    ensures y == x && pos == 0
  {
  }

  lemma RecordInHeap<B>(file: seq<Record<B>>, i: nat)
    requires UniqueIds(file) && i < |file|
    ensures file[i].id in Contents(file) && Contents(file)[file[i].id] == file[i].body
  {
    FindUnique(file, i);
  }

  lemma NextOfOne(st: Store, x: uint32, pos: nat, a: nat)
    requires WF(st) && HasChain(HeapOf(st), x) && pos < |st.lists[x]|
    requires a < |st.props| && st.props[a].body.nextId == st.lists[x][pos]
    ensures pos > 0 && st.props[a].id == st.lists[x][pos - 1]
  {
    hide Linked, Contents, UniqueIds, HasChain;
    OnlyPointer(HeapOf(st), x, pos);
    RecordInHeap(st.props, a);
  }

  lemma HeadOfOne(st: Store, x: uint32, pos: nat, o: nat)
    requires WF(st) && HasChain(HeapOf(st), x) && pos < |st.lists[x]|
    requires o < |st.objs| && st.objs[o].body.propId == st.lists[x][pos]
    ensures pos == 0 && st.objs[o].id == x
  {
    hide Linked, Contents, UniqueIds, HasChain;
    RecordInHeap(st.objs, o);
    HeadIsOwn(HeapOf(st), x, pos, st.objs[o].id);
  }

  lemma PointersOf(st: Store, q: uint32)
    requires WF(st) && q in Contents(st.props)
    ensures OnePointer(st, Contents(st.props)[q].objectId, q)
  {
    hide Linked, Contents;
    var x, pos := OnSomeChain(st, q);
    forall a | 0 <= a < |st.props| && st.props[a].body.nextId == q
      ensures pos > 0 && st.props[a].id == st.lists[x][pos - 1]
    {
      NextOfOne(st, x, pos, a);
    }
    forall o | 0 <= o < |st.objs| && st.objs[o].body.propId == q ensures pos == 0 && st.objs[o].id == x {
      HeadOfOne(st, x, pos, o);
    }
  }

  /** Every property of well-formed files is pointed at. */
  lemma SomePointer(st: Store, q: uint32)
    requires WF(st) && q in Contents(st.props)
    ensures !Unpointed(st, q)
  {
    var x, pos := OnSomeChain(st, q);
    PredecessorLinks(HeapOf(st), x, pos);
    hide Linked, UniqueIds;
    if pos == 0 {
      assert st.objs[Find(st.objs, x)].body.propId == q;
    } else {
      assert st.props[Find(st.props, st.lists[x][pos - 1])].body.nextId == q;
    }
  }

  lemma UnpointedIsLost(st: Store, q: uint32, i: nat)
    requires i < |st.props| && st.props[i].id == q && Unpointed(st, q)
    ensures !WellFormed(st)
  {
    hide Linked, HeapOf;
    forall lists ensures !WF(st.(lists := lists)) {
      if WF(st.(lists := lists)) {
        RecordInHeap(st.props, i);
        SomePointer(st.(lists := lists), q);
      }
    }
  }

  /** If the property is not the last record, it stays, and the record that pointed at it is
      dropped or overwritten. */
  lemma PointerLost(st: Store, q: uint32, junkProp: PropRecord, junkObj: ObjRecord)
    requires UniqueIds(st.objs) && st.objs != [] && Find(st.props, q) < |st.props| - 1
    requires var p := st.props[Find(st.props, q)].body;
      && p.nextId != q && OnePointer(st, p.objectId, q)
      && Find(st.vals, p.valueId) < |st.vals| && Find(st.objs, p.objectId) < |st.objs|
    ensures var st', i := DeletePropAsWritten(st, q, junkProp, junkObj).0, Find(st.props, q);
      i < |st'.props| && st'.props[i].id == q && Unpointed(st', q)
  {
    hide Without, LeakyRemove;
  }

  /** The statements leave well-formed files only if the property and its value are the last
      records of their files, whatever the unassigned records hold. */
  lemma WellFormedOnlyAtTheEnds(st: Store, q: uint32, junkProp: PropRecord, junkObj: ObjRecord)
    requires WF(st) && q in Contents(st.props)
    ensures WellFormed(DeletePropAsWritten(st, q, junkProp, junkObj).0) ==>
      && Find(st.props, q) == |st.props| - 1
      && Find(st.vals, st.props[Find(st.props, q)].body.valueId) == |st.vals| - 1
  {
    hide DeletePropAsWritten, Linked, OnePointer, Unpointed, WellFormed, HeapOf;
    ScansFind(st, q);
    var i := Find(st.props, q);
    if i < |st.props| - 1 {
      PointersOf(st, q);
      PointerLost(st, q, junkProp, junkObj);
      UnpointedIsLost(DeletePropAsWritten(st, q, junkProp, junkObj).0, q, i);
    } else if Find(st.vals, st.props[i].body.valueId) < |st.vals| - 1 {
      LeakedValue(st, q, junkProp, junkObj);
    }
  }
}
