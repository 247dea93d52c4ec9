/** Deleting properties and objects.

    DeleteProp is the deletion that the comments of the source describe: move the last record
    of each file over the deleted one, cut the file, and patch only the link field of the
    record that pointed at the property.  DeletePropAsWritten is what the statements do; see
    AsWrittenMeetsIntentIff for the difference. */
module BinderyDelete {
  import opened Bytes
  import opened RecordFiles
  import H = BinderyHeap
  import opened BinderyHeap
  import opened BinderyStore

  function IndexOf(list: seq<uint32>, q: uint32): (i: nat)
    requires q in list
    ensures i < |list| && list[i] == q
  {
    if list[0] == q then 0 else 1 + IndexOf(list[1..], q)
  }

  /** Remove q from the list of object x. */
  function Without(lists: Lists, x: uint32, q: uint32): Lists {
    if x in lists && q in lists[x] then lists[x := DropAt(lists[x], IndexOf(lists[x], q))] else lists
  }

  /** Make the record that points at property q point past it. */
  function Unlink(objs: seq<ObjRecord>, props: seq<PropRecord>, x: uint32, q: uint32, next: uint32)
    : (seq<ObjRecord>, seq<PropRecord>, byte)
  {
    var k := FindNext(props, q);
    if k < |props| then (objs, Patched(props, k, props[k].body.(nextId := next)), OK)
    else
      var i := Find(objs, x);
      if i == |objs| then (objs, props, NOSUCHOBJECT)
      else if objs[i].body.propId == q then (Patched(objs, i, objs[i].body.(propId := next)), props, OK)
      else (objs, props, OK)
  }

  function DeleteProp(st: Store, q: uint32): (Store, byte) {
    var i := Find(st.props, q);
    if i == |st.props| then (st, NOSUCHPROPERTY)
    else
      var p := st.props[i].body;
      var j := Find(st.vals, p.valueId);
      if j == |st.vals| then (st, NOSUCHPROPERTY)
      else
        var (objs, props, code) := Unlink(st.objs, SwapRemove(st.props, i), p.objectId, q, p.nextId);
        (Store(objs, props, SwapRemove(st.vals, j), Without(st.lists, p.objectId, q)), code)
  }

  lemma OnlyPointer(h: Heap, x: uint32, i: nat)
    requires Linked(h) && HasChain(h, x) && i < |h.lists[x]|
    ensures forall s :: s in h.props && h.props[s].nextId == h.lists[x][i] ==> i > 0 && s == h.lists[x][i - 1]
  {
  }

  /** The predecessor points at the property; the first property is pointed at by its object. */
  lemma PredecessorLinks(h: Heap, x: uint32, i: nat)
    requires Linked(h) && HasChain(h, x) && i < |h.lists[x]|
    ensures i == 0 ==> h.objs[x].propId == h.lists[x][0]
    ensures i > 0 ==> h.lists[x][i - 1] in h.props && h.props[h.lists[x][i - 1]].nextId == h.lists[x][i]
    ensures h.lists[x][i] in h.props && h.props[h.lists[x][i]].nextId == At(h.lists[x], i + 1)
    ensures i > 0 ==> h.lists[x][i - 1] != h.lists[x][i]
  {
  }

  lemma PatchPredecessor(props: seq<PropRecord>, q: uint32, r: uint32, next: uint32)
    requires UniqueIds(props) && r in Contents(props) && Contents(props)[r].nextId == q
    requires forall s :: s in Contents(props) && Contents(props)[s].nextId == q ==> s == r
    ensures var k := FindNext(props, q);
      && k < |props| && props[k].id == r
      && var props' := Patched(props, k, props[k].body.(nextId := next));
      UniqueIds(props') && Contents(props') == Contents(props)[r := Contents(props)[r].(nextId := next)]
  {
    var k := FindNext(props, q);
    assert props[Find(props, r)].body.nextId == q;
    FindUnique(props, k);
    assert props[k].id in Contents(props);
    PatchIsUpdate(props, k, props[k].body.(nextId := next));
  }

  lemma NoPredecessor(props: seq<PropRecord>, q: uint32)
    requires UniqueIds(props)
    requires forall s :: s in Contents(props) ==> Contents(props)[s].nextId != q
    ensures FindNext(props, q) == |props|
  {
    var k := FindNext(props, q);
    if k < |props| {
      FindUnique(props, k);
    }
    assert k == |props| || props[k].id in Contents(props);
  }

  lemma PatchFirst(objs: seq<ObjRecord>, x: uint32, next: uint32)
    requires UniqueIds(objs) && x in Contents(objs)
    ensures var i := Find(objs, x);
      var objs' := Patched(objs, i, objs[i].body.(propId := next));
      UniqueIds(objs') && Contents(objs') == Contents(objs)[x := Contents(objs)[x].(propId := next)]
  {
    var i := Find(objs, x);
    PatchIsUpdate(objs, i, objs[i].body.(propId := next));
  }

  lemma UnlinkLater(objs: seq<ObjRecord>, rest: seq<PropRecord>, x: uint32, q: uint32, r: uint32, next: uint32)
    requires UniqueIds(rest) && r in Contents(rest) && Contents(rest)[r].nextId == q
    requires forall s :: s in Contents(rest) && Contents(rest)[s].nextId == q ==> s == r
    ensures var (objs', props, code) := Unlink(objs, rest, x, q, next);
      && code == OK && objs' == objs && UniqueIds(props)
      && Contents(props) == Contents(rest)[r := Contents(rest)[r].(nextId := next)]
  {
    PatchPredecessor(rest, q, r, next);
  }

  lemma UnlinkFirst(objs: seq<ObjRecord>, rest: seq<PropRecord>, x: uint32, q: uint32, next: uint32)
    requires UniqueIds(rest) && UniqueIds(objs) && x in Contents(objs) && Contents(objs)[x].propId == q
    requires forall s :: s in Contents(rest) ==> Contents(rest)[s].nextId != q
    ensures var (objs', props, code) := Unlink(objs, rest, x, q, next);
      && code == OK && props == rest && UniqueIds(objs')
      && Contents(objs') == Contents(objs)[x := Contents(objs)[x].(propId := next)]
  {
    NoPredecessor(rest, q);
    PatchFirst(objs, x, next);
  }

  lemma IndexOfUnique(list: seq<uint32>, i: nat)
    requires i < |list| && NoRepeats(list)
    ensures IndexOf(list, list[i]) == i
  {
  }

  lemma ReadableMeans(h: Heap, q: uint32)
    requires Readable(h, q)
    ensures q in h.props && h.props[q].valueId in h.vals
  {
  }

  /** What the scans of a deletion find. */
  lemma RecordOf(st: Store, x: uint32, i: nat, q: uint32)
    requires WF(st) && HasChain(HeapOf(st), x) && i < |st.lists[x]| && q == st.lists[x][i]
    ensures var k := Find(st.props, q);
      && k < |st.props|
      && st.props[k].body.objectId == x && st.props[k].body.nextId == At(st.lists[x], i + 1)
      && Find(st.vals, st.props[k].body.valueId) < |st.vals|
  {
    hide Linked, UniqueIds, Readable, Chain;
    var h := HeapOf(st);
    PredecessorLinks(h, x, i);
    LinkedChain(h, x);
    ChainObjects(h.props, x, h.objs[x].propId, st.lists[x]);
    hide HasChain;
    assert Readable(h, q);
    ReadableMeans(h, q);
  }

  lemma UnlinkedLists(st: Store, x: uint32, i: nat, q: uint32)
    requires WF(st) && HasChain(HeapOf(st), x) && i < |st.lists[x]| && q == st.lists[x][i]
    ensures Without(st.lists, x, q) == st.lists[x := DropAt(st.lists[x], i)]
  {
    hide Linked, UniqueIds, Readable, Chain, DropAt, IndexOf, Contents;
    LinkedChain(HeapOf(st), x);
    IndexOfUnique(st.lists[x], i);
  }

  lemma DeletionFinds(st: Store, x: uint32, i: nat, q: uint32)
    requires WF(st) && HasChain(HeapOf(st), x) && i < |st.lists[x]| && q == st.lists[x][i]
    ensures var k := Find(st.props, q);
      && k < |st.props|
      && st.props[k].body.objectId == x && st.props[k].body.nextId == At(st.lists[x], i + 1)
      && Find(st.vals, st.props[k].body.valueId) < |st.vals|
    ensures Without(st.lists, x, q) == st.lists[x := DropAt(st.lists[x], i)]
  {
    hide Linked, UniqueIds, Readable, Chain, NoRepeats, DropAt, IndexOf, Contents;
    RecordOf(st, x, i, q);
    UnlinkedLists(st, x, i, q);
  }

  /** Files that hold h without property q are unlinked into files that hold H.DeleteProp. */
  lemma DeletionUnlinks(h: Heap, x: uint32, i: nat, objs: seq<ObjRecord>, rest: seq<PropRecord>)
    requires Linked(h) && HasChain(h, x) && i < |h.lists[x]|
    requires UniqueIds(objs) && Contents(objs) == h.objs
    requires UniqueIds(rest) && Contents(rest) == h.props - {h.lists[x][i]}
    ensures var (objs', props, code) := Unlink(objs, rest, x, h.lists[x][i], At(h.lists[x], i + 1));
      && code == OK && UniqueIds(objs') && UniqueIds(props)
      && Contents(objs') == H.DeleteProp(h, x, i).objs
      && Contents(props) == H.DeleteProp(h, x, i).props
  {
    hide Linked, AllReadable, Contents, UniqueIds, Unlink;
    var list := h.lists[x];
    OnlyPointer(h, x, i);
    PredecessorLinks(h, x, i);
    if i > 0 {
      UnlinkLater(objs, rest, x, list[i], list[i - 1], At(list, i + 1));
    } else {
      UnlinkFirst(objs, rest, x, list[i], At(list, i + 1));
    }
  }

  /** At the level of the maps the deletion is exactly H.DeleteProp. */
  lemma DeletePropHeap(st: Store, x: uint32, i: nat)
    requires WF(st) && HasChain(HeapOf(st), x) && i < |st.lists[x]|
    ensures var (st', code) := DeleteProp(st, st.lists[x][i]);
      code == OK && UniqueFiles(st') && HeapOf(st') == H.DeleteProp(HeapOf(st), x, i)
  {
    var q := st.lists[x][i];
    var k := Find(st.props, q);
    DeletionFinds(st, x, i, q);
    SwapRemoveIsRemove(st.props, k);
    SwapRemoveIsRemove(st.vals, Find(st.vals, st.props[k].body.valueId));
    DeletionUnlinks(HeapOf(st), x, i, st.objs, SwapRemove(st.props, k));
    hide Linked, Unlink, Without, SwapRemove, Contents, UniqueIds, AllReadable, Find;
  }

  lemma ViewIds(st: Store, x: uint32)
    requires WF(st) && x in ViewOf(st)
    ensures HasChain(HeapOf(st), x) && |ViewOf(st)[x].properties| == |st.lists[x]|
    ensures forall i :: 0 <= i < |st.lists[x]| ==> ViewOf(st)[x].properties[i].id == st.lists[x][i]
    ensures ViewOf(st)[x].properties == PropertiesOf(HeapOf(st), x)
  {
  }

  /** Deleting the property that stands at position i of object x in the view removes exactly
      it and its value, whichever records moved into the holes. */
  lemma DeletePropRefines(st: Store, x: uint32, i: nat)
    requires WF(st) && x in ViewOf(st) && i < |ViewOf(st)[x].properties|
    ensures var ps := ViewOf(st)[x].properties;
      var (st', code) := DeleteProp(st, ps[i].id);
      && code == OK && WF(st')
      && ViewOf(st') == WithProperties(ViewOf(st), x, DropAt(ps, i))
  {
    ViewIds(st, x);
    DeletePropHeap(st, x, i);
    DeletePropView(HeapOf(st), x, i);
    hide Linked, UniqueIds, DeleteProp, HasChain, PropertiesOf, View, Contents, H.DeleteProp;
  }

  /** An id that no property of the view has is refused. */
  lemma DeleteUnknownProp(st: Store, q: uint32)
    requires WF(st)
    ensures q in Contents(st.props) <==>
            exists x, i :: x in ViewOf(st) && 0 <= i < |ViewOf(st)[x].properties| && ViewOf(st)[x].properties[i].id == q
    ensures q !in Contents(st.props) ==> DeleteProp(st, q) == (st, NOSUCHPROPERTY)
  {
    if q in Contents(st.props) {
      var k := Find(st.props, q);
      PropOnChain(st, k);
      var x := st.props[k].body.objectId;
      ViewIds(st, x);
      var i := ChainPosition(st.lists[x], q);
      assert ViewOf(st)[x].properties[i].id == q;
    }
    if x, i :| x in ViewOf(st) && 0 <= i < |ViewOf(st)[x].properties| && ViewOf(st)[x].properties[i].id == q {
      ViewIds(st, x);
      assert Readable(HeapOf(st), st.lists[x][i]);
    }
  }

  // ----- deleting an object -----------------------------------------------------------------

  /** Only the link field of record i differs. */
  ghost predicate OnlyLinkDiffers(objs: seq<ObjRecord>, objs': seq<ObjRecord>, i: nat) {
    |objs| == |objs'| && i < |objs|
    && objs' == Patched(objs, i, objs[i].body.(propId := objs'[i].body.propId))
  }

  lemma UnlinkShape(objs: seq<ObjRecord>, props: seq<PropRecord>, x: uint32, q: uint32, next: uint32)
    requires Find(objs, x) < |objs|
    ensures OnlyLinkDiffers(objs, Unlink(objs, props, x, q, next).0, Find(objs, x))
  {
  }

  /** Deleting the first property of a chain leaves the rest of the chain. */
  lemma DeleteFirst(st: Store, x: uint32)
    requires WF(st) && x in ViewOf(st) && x in st.lists && st.lists[x] != []
    ensures ViewOf(st)[x].properties != []
    ensures var (st', code) := DeleteProp(st, st.lists[x][0]);
      && code == OK && WF(st') && x in ViewOf(st')
      && x in st'.lists && st'.lists[x] == st.lists[x][1..]
      && ViewOf(st') == WithProperties(ViewOf(st), x, ViewOf(st)[x].properties[1..])
      && OnlyLinkDiffers(st.objs, st'.objs, Find(st.objs, x))
  {
    hide Linked, UniqueIds;
    ViewIds(st, x);
    DeletePropRefines(st, x, 0);
    DeletePropHeap(st, x, 0);
    var ps := ViewOf(st)[x].properties;
    assert DropAt(ps, 0) == ps[1..] && DropAt(st.lists[x], 0) == st.lists[x][1..];
    DeletionFinds(st, x, 0, st.lists[x][0]);
    var k := Find(st.props, st.lists[x][0]);
    UnlinkShape(st.objs, SwapRemove(st.props, k), x, st.lists[x][0], st.props[k].body.nextId);
  }

  /** Such changes add up, do not move records, and vanish when record i is removed. */
  lemma OnlyLinkFacts(a: seq<ObjRecord>, b: seq<ObjRecord>, c: seq<ObjRecord>, x: uint32)
    requires Find(a, x) < |a| && OnlyLinkDiffers(a, b, Find(a, x))
    ensures Find(b, x) == Find(a, x)
    ensures OnlyLinkDiffers(b, c, Find(a, x)) ==> OnlyLinkDiffers(a, c, Find(a, x))
    ensures SwapRemove(b, Find(a, x)) == SwapRemove(a, Find(a, x))
  {
  }

  /** Delete all properties of object x, first to last. */
  ghost function DeleteChain(st: Store, x: uint32): (st': Store)
    requires WF(st) && x in ViewOf(st) && x in st.lists
    decreases |st.lists[x]|
  {
    if st.lists[x] == [] then st
    else
      DeleteFirst(st, x);
      DeleteChain(DeleteProp(st, st.lists[x][0]).0, x)
  }

  lemma InView(st: Store, x: uint32)
    requires WF(st)
    ensures x in ViewOf(st) <==> Find(st.objs, x) < |st.objs|
    ensures x in ViewOf(st) ==> HasChain(HeapOf(st), x)
  {
  }

  /** st' is st without the properties of x; of the object records only the link of x differs. */
  ghost predicate Emptied(st: Store, st': Store, x: uint32) {
    && WF(st) && WF(st') && x in ViewOf(st) && x in st'.lists && st'.lists[x] == []
    && ViewOf(st') == WithProperties(ViewOf(st), x, [])
    && OnlyLinkDiffers(st.objs, st'.objs, Find(st.objs, x))
  }

  lemma WithTwice(view: map<uint32, Object>, x: uint32, ps: seq<Property>)
    requires x in view
    ensures WithProperties(WithProperties(view, x, ps), x, []) == WithProperties(view, x, [])
  {
  }

  lemma EmptiedStep(st: Store, rest: Store, st': Store, x: uint32, ps: seq<Property>)
    requires WF(st) && x in ViewOf(st) && WF(rest) && Emptied(rest, st', x)
    requires ViewOf(rest) == WithProperties(ViewOf(st), x, ps)
    requires OnlyLinkDiffers(st.objs, rest.objs, Find(st.objs, x))
    ensures Emptied(st, st', x)
  {
    InView(st, x);
    WithTwice(ViewOf(st), x, ps);
    hide WF, ViewOf, OnlyLinkDiffers, WithProperties;
    OnlyLinkFacts(st.objs, rest.objs, st'.objs, x);
  }

  lemma EmptiedAlready(st: Store, x: uint32)
    requires WF(st) && x in ViewOf(st) && x in st.lists && st.lists[x] == []
    ensures Emptied(st, st, x)
  {
    hide Linked, UniqueIds, HasChain, Contents;
    ViewIds(st, x);
    InView(st, x);
    assert WithProperties(ViewOf(st), x, []) == ViewOf(st);
  }

  lemma {:induction false} DeleteChainEmpties(st: Store, x: uint32)
    requires WF(st) && x in ViewOf(st) && x in st.lists
    ensures Emptied(st, DeleteChain(st, x), x)
    decreases |st.lists[x]|
  {
    hide DeleteProp, ViewOf, WF, Emptied, WithProperties, OnlyLinkDiffers;
    if st.lists[x] == [] {
      EmptiedAlready(st, x);
    } else {
      DeleteFirst(st, x);
      var rest := DeleteProp(st, st.lists[x][0]).0;
      DeleteChainEmpties(rest, x);
      EmptiedStep(st, rest, DeleteChain(rest, x), x, ViewOf(st)[x].properties[1..]);
    }
  }

  ghost function DeleteObject(st: Store, x: uint32): (Store, byte)
    requires WF(st)
  {
    var i := Find(st.objs, x);
    if i == |st.objs| then (st, NOSUCHOBJECT)
    else
      LinkedChain(HeapOf(st), x);
      DeleteChainEmpties(st, x);
      var st' := DeleteChain(st, x);
      (Store(SwapRemove(st'.objs, i), st'.props, st'.vals, st'.lists - {x}), OK)
  }

  lemma RemoveBare(st: Store, x: uint32)
    requires WF(st) && HasChain(HeapOf(st), x) && st.lists[x] == []
    requires Find(st.objs, x) < |st.objs|
    ensures var st' := Store(SwapRemove(st.objs, Find(st.objs, x)), st.props, st.vals, st.lists - {x});
      WF(st') && ViewOf(st') == ViewOf(st) - {x}
  {
    hide Linked;
    SwapRemoveIsRemove(st.objs, Find(st.objs, x));
    RemoveObjectView(HeapOf(st), x);
  }

  lemma RemoveEmptied(st: Store, st': Store, x: uint32)
    requires Emptied(st, st', x) && Find(st.objs, x) < |st.objs|
    ensures |st'.objs| == |st.objs|
    ensures var gone := Store(SwapRemove(st'.objs, Find(st.objs, x)), st'.props, st'.vals, st'.lists - {x});
      WF(gone) && ViewOf(gone) == ViewOf(st) - {x} && gone.objs == SwapRemove(st.objs, Find(st.objs, x))
  {
    hide WF, ViewOf, SwapRemove;
    OnlyLinkFacts(st.objs, st'.objs, st'.objs, x);
    InView(st', x);
    RemoveBare(st', x);
    assert WithProperties(ViewOf(st), x, []) - {x} == ViewOf(st) - {x};
  }

  /** Deleting an object removes it with exactly its own properties and values; every other
      object keeps its properties, in order, with their data. */
  lemma DeleteObjectRefines(st: Store, x: uint32)
    requires WF(st)
    ensures var (st', code) := DeleteObject(st, x);
      if x !in ViewOf(st) then code == NOSUCHOBJECT && st' == st
      else
        && code == OK && WF(st') && ViewOf(st') == ViewOf(st) - {x}
        && st'.objs == SwapRemove(st.objs, Find(st.objs, x))
  {
    InView(st, x);
    if x in ViewOf(st) {
      DeleteChainEmpties(st, x);
      hide DeleteChain, WF, ViewOf, Emptied, SwapRemove;
      RemoveEmptied(st, DeleteChain(st, x), x);
    }
  }
}
