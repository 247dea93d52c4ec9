/** The three bindery files and what each operation makes of them.

    A Store is the contents of NET$OBJ.SYS, NET$PROP.SYS and NET$VAL.SYS, together with the
    lists its links spell (which ListsDetermined shows to be no extra information).  Every
    function below is the effect of one operation, record by record; every ...Refines lemma
    says what that operation means in the view of BinderyHeap. */
module BinderyStore {
  import opened Bytes
  import opened RecordFiles
  import H = BinderyHeap
  import opened BinderyHeap

  type ObjRecord = Record<ObjBody>
  type PropRecord = Record<PropBody>
  type ValRecord = Record<ValBody>

  datatype Store = Store(objs: seq<ObjRecord>, props: seq<PropRecord>, vals: seq<ValRecord>, lists: Lists)

  const OK: byte := 0x00
  const PROPEXISTS: byte := 0xed
  const OBJEXISTS: byte := 0xee
  const NOSUCHPROPERTY: byte := 0xfb
  const NOSUCHOBJECT: byte := 0xfc
  const IOERROR: byte := 0xff

  datatype Reply = Done(id: uint32) | Failed(code: byte)

  ghost function HeapOf(st: Store): Heap {
    Heap(Contents(st.objs), Contents(st.props), Contents(st.vals), st.lists)
  }

  ghost predicate WF(st: Store) {
    UniqueIds(st.objs) && UniqueIds(st.props) && UniqueIds(st.vals) && Linked(HeapOf(st))
  }

  ghost function ViewOf(st: Store): map<uint32, Object>
    requires WF(st)
  {
    View(HeapOf(st))
  }

  // ----- scans ------------------------------------------------------------------------

  /** The name a reader of an object record sees. */
  function ObjName(o: ObjBody): CString {
    UpToNul(Clip(o.nameField, o.namelen))
  }

  predicate IsObject(o: ObjBody, name: CString, typ: uint16) {
    SameUpTo(name, ObjName(o), 48) && o.typ == typ
  }

  /** First object of the given name and type. */
  function FindObject(objs: seq<ObjRecord>, name: CString, typ: uint16): (i: nat)
    ensures i <= |objs|
    ensures i < |objs| ==> IsObject(objs[i].body, name, typ)
    ensures forall j :: 0 <= j < i ==> !IsObject(objs[j].body, name, typ)
  {
    if objs == [] || IsObject(objs[0].body, name, typ) then 0
    else 1 + FindObject(objs[1..], name, typ)
  }

  predicate IsNamed(p: PropBody, x: uint32, name: CString) {
    p.objectId == x && SameUpTo(p.name, name, 15)
  }

  /** First property of object x with the given name. */
  function FindNamed(props: seq<PropRecord>, x: uint32, name: CString): (i: nat)
    ensures i <= |props|
    ensures i < |props| ==> IsNamed(props[i].body, x, name)
    ensures forall j :: 0 <= j < i ==> !IsNamed(props[j].body, x, name)
  {
    if props == [] || IsNamed(props[0].body, x, name) then 0
    else 1 + FindNamed(props[1..], x, name)
  }

  /** First property whose next id is q. */
  function FindNext(props: seq<PropRecord>, q: uint32): (i: nat)
    ensures i <= |props|
    ensures i < |props| ==> props[i].body.nextId == q
    ensures forall j :: 0 <= j < i ==> props[j].body.nextId != q
  {
    if props == [] || props[0].body.nextId == q then 0
    else 1 + FindNext(props[1..], q)
  }

  // ----- adding -------------------------------------------------------------------------

  function NewObject(name: CString, typ: uint16, flags: byte, security: byte): ObjBody
    requires |name| <= 47
  {
    ObjBody(typ, |name|, name + seq(47 - |name|, _ => '\0'), flags, security, NIL)
  }

  /** The effect of adding an object that gets the id x. */
  function AddObject(st: Store, name: CString, typ: uint16, flags: byte, security: byte, x: uint32): (Store, Reply)
    requires |name| <= 47
  {
    if FindObject(st.objs, name, typ) < |st.objs| then (st, Failed(OBJEXISTS))
    else
      (st.(objs := st.objs + [Record(x, NewObject(name, typ, flags, security))],
           lists := st.lists[x := []]), Done(x))
  }

  /** The records of file keep their places and ids in file'. */
  ghost predicate SameIds<B>(file: seq<Record<B>>, file': seq<Record<B>>) {
    |file| <= |file'| && forall i :: 0 <= i < |file| ==> file'[i].id == file[i].id
  }

  /** Patch only the link field of property last. */
  ghost function SetNext(props: seq<PropRecord>, last: uint32, next: uint32): (r: seq<PropRecord>)
    ensures |r| == |props| && SameIds(props, r)
  {
    var t := Find(props, last);
    if t < |props| then Patched(props, t, props[t].body.(nextId := next)) else props
  }

  lemma SetNextIsUpdate(props: seq<PropRecord>, last: uint32, next: uint32)
    requires UniqueIds(props) && last in Contents(props)
    ensures UniqueIds(SetNext(props, last, next))
    ensures Contents(SetNext(props, last, next)) == Contents(props)[last := Contents(props)[last].(nextId := next)]
  {
    var t := Find(props, last);
    PatchIsUpdate(props, t, props[t].body.(nextId := next));
  }

  /** Both new records at the end of their files, and the link to the property in the object
      record or in the last property of the object. */
  ghost function Append(st: Store, x: uint32, q: uint32, p: PropBody, data: Block): Store
    requires Find(st.objs, x) < |st.objs|
  {
    var i, list := Find(st.objs, x), if x in st.lists then st.lists[x] else [];
    var props := st.props + [Record(q, p)];
    var vals := st.vals + [Record(p.valueId, ValBody(q, NIL, 0x100, data))];
    var lists := st.lists[x := list + [q]];
    if st.objs[i].body.propId == NIL then
      Store(Patched(st.objs, i, st.objs[i].body.(propId := q)), props, vals, lists)
    else if list == [] then Store(st.objs, props, vals, lists)
    else
      Store(st.objs, SetNext(props, list[|list| - 1], q), vals, lists)
  }

  /** The effect of adding property q, with value v, to object x. */
  ghost function AddProp(st: Store, x: uint32, name: CString, flags: byte, security: byte,
                         data: Block, v: uint32, q: uint32): (Store, Reply)
    requires |name| <= 15
  {
    var i := Find(st.objs, x);
    if i == |st.objs| then (st, Failed(NOSUCHOBJECT))
    else if FindNamed(st.props, x, name) < |st.props| then (st, Failed(PROPEXISTS))
    else (Append(st, x, q, PropBody(name, flags, security, x, v, NIL), data), Done(q))
  }

  /** The first id of an object is NIL exactly when its list is empty. */
  lemma EmptyChain(h: Heap, x: uint32)
    requires Linked(h) && x in h.objs
    ensures x in h.lists
    ensures h.objs[x].propId == NIL <==> h.lists[x] == []
  {
  }

  lemma FindAppend<B>(file: seq<Record<B>>, r: Record<B>, id: uint32)
    requires Find(file, id) < |file|
    ensures Find(file + [r], id) == Find(file, id)
  {
    var i, k := Find(file, id), Find(file + [r], id);
    assert (file + [r])[i] == file[i];
    assert k >= |file| || (file + [r])[k] == file[k];
  }

  lemma TailFound(st: Store, x: uint32, r: PropRecord)
    requires WF(st) && Find(st.objs, x) < |st.objs|
    ensures x in st.lists
    ensures st.objs[Find(st.objs, x)].body.propId != NIL ==>
      st.lists[x] != [] && var last := st.lists[x][|st.lists[x]| - 1];
      && Find(st.props, last) < |st.props|
      && Find(st.props + [r], last) == Find(st.props, last)
  {
    hide Linked, Chain;
    var h := HeapOf(st);
    LinkedChain(h, x);
    EmptyChain(h, x);
    if st.lists[x] != [] {
      var last := st.lists[x][|st.lists[x]| - 1];
      assert Readable(h, last);
      FindAppend(st.props, r, last);
    }
  }

  /** Position of the first property of the given name, or the length. */
  function Lookup(ps: seq<Property>, name: string): (i: nat)
    ensures i <= |ps|
    ensures i < |ps| ==> ps[i].name == name
    ensures forall j :: 0 <= j < i ==> ps[j].name != name
  {
    if ps == [] || ps[0].name == name then 0 else 1 + Lookup(ps[1..], name)
  }

  lemma ChainRendered(h: Heap, x: uint32)
    requires Linked(h) && x in h.objs
    ensures HasChain(h, x) && |PropertiesOf(h, x)| == |h.lists[x]|
    ensures forall i :: 0 <= i < |h.lists[x]| ==>
      && Readable(h, h.lists[x][i]) && h.props[h.lists[x][i]].objectId == x
      && PropertiesOf(h, x)[i] == PropertyOf(h, h.lists[x][i])
  {
  }

  lemma ClipShort(s: string, n: nat)
    requires |s| <= n
    ensures Clip(s, n) == s
  {
  }

  lemma SameName(h: Heap, q: uint32, r: uint32)
    requires Linked(h) && q in h.props && r in h.props
    requires h.props[q].objectId == h.props[r].objectId && h.props[q].name == h.props[r].name
    ensures q == r
  {
  }

  /** The record at position k of the property file is on the chain of its object. */
  lemma PropOnChain(st: Store, k: nat)
    requires WF(st) && k < |st.props|
    ensures var h, q, p := HeapOf(st), st.props[k].id, st.props[k].body;
      && q in h.props && h.props[q] == p && Readable(h, q) && |p.name| <= 15
      && p.objectId in h.objs && p.objectId in h.lists && q in h.lists[p.objectId]
  {
    FindUnique(st.props, k);
    hide Chain;
    assert st.props[k].id in Contents(st.props);
  }

  lemma ChainPosition(list: seq<uint32>, q: uint32) returns (i: nat)
    requires q in list
    ensures i < |list| && list[i] == q
  {
    i :| 0 <= i < |list| && list[i] == q;
  }

  /** What the flat scan finds is on the chain, at the position that the chain walk finds. */
  lemma ScanHitsChain(st: Store, x: uint32, name: CString, ps: seq<Property>)
    requires WF(st) && x in HeapOf(st).objs && HasChain(HeapOf(st), x) && ps == PropertiesOf(HeapOf(st), x)
    requires FindNamed(st.props, x, name) < |st.props|
    ensures var k, i := FindNamed(st.props, x, name), Lookup(ps, Clip(name, 15));
      |ps| == |st.lists[x]| && i < |ps| && st.lists[x][i] == st.props[k].id
  {
    hide UniqueIds, Linked, Chain, Clip, Lookup, FindNamed, Find, Contents;
    var h, k := HeapOf(st), FindNamed(st.props, x, name);
    ChainRendered(h, x);
    PropOnChain(st, k);
    var q := st.props[k].id;
    var j := ChainPosition(h.lists[x], q);
    ClipShort(st.props[k].body.name, 15);
    assert ps[j].name == Clip(name, 15);
    var i := Lookup(ps, Clip(name, 15));
    SameName(h, h.lists[x][i], q);
  }

  lemma NameLength(h: Heap, q: uint32)
    requires Linked(h) && q in h.props
    ensures |h.props[q].name| <= 15
  {
  }

  /** What the chain walk finds is seen by the flat scan. */
  lemma ChainHitsScan(st: Store, x: uint32, name: CString, ps: seq<Property>)
    requires WF(st) && x in HeapOf(st).objs && HasChain(HeapOf(st), x) && ps == PropertiesOf(HeapOf(st), x)
    requires Lookup(ps, Clip(name, 15)) < |ps|
    ensures FindNamed(st.props, x, name) < |st.props|
  {
    hide UniqueIds, Linked, Chain, Clip, Lookup, FindNamed, Find;
    var h, i := HeapOf(st), Lookup(ps, Clip(name, 15));
    ChainRendered(h, x);
    var q := h.lists[x][i];
    NameLength(h, q);
    ClipShort(ps[i].name, 15);
    assert IsNamed(st.props[Find(st.props, q)].body, x, name);
  }

  /** The flat scan for (object, name) over the whole property file gives the same answer as
      walking the chain of the object. */
  lemma FlatScanIsChainScan(st: Store, x: uint32, name: CString)
    requires WF(st) && x in ViewOf(st)
    ensures HasChain(HeapOf(st), x)
    ensures var k, ps := FindNamed(st.props, x, name), ViewOf(st)[x].properties;
      var i := Lookup(ps, Clip(name, 15));
      && (k < |st.props| <==> i < |ps|)
      && |ps| == |st.lists[x]|
      && (i < |ps| ==> st.lists[x][i] == st.props[k].id && ps[i] == PropertyOf(HeapOf(st), st.props[k].id))
  {
    hide UniqueIds, Linked, Chain, Clip, Lookup, FindNamed, IsNamed, Find, Contents;
    var h := HeapOf(st);
    ChainRendered(h, x);
    var k, ps := FindNamed(st.props, x, name), PropertiesOf(h, x);
    if k < |st.props| {
      ScanHitsChain(st, x, name, ps);
    }
    if Lookup(ps, Clip(name, 15)) < |ps| {
      ChainHitsScan(st, x, name, ps);
    }
  }

  /** Only objects of the bindery have properties. */
  lemma NoStrayProperties(st: Store, x: uint32, name: CString)
    requires WF(st) && x !in ViewOf(st)
    ensures FindNamed(st.props, x, name) == |st.props|
  {
    var k := FindNamed(st.props, x, name);
    if k < |st.props| { PropOnChain(st, k); }
  }

  ghost predicate UniqueFiles(st: Store) {
    UniqueIds(st.objs) && UniqueIds(st.props) && UniqueIds(st.vals)
  }

  lemma AddObjectHeap(st: Store, name: CString, typ: uint16, flags: byte, security: byte, x: uint32)
    requires UniqueFiles(st) && |name| <= 47 && AddObject(st, name, typ, flags, security, x).1.Done?
    requires x !in Contents(st.objs)
    ensures var st' := AddObject(st, name, typ, flags, security, x).0;
      UniqueFiles(st') && HeapOf(st') == H.AddObject(HeapOf(st), x, NewObject(name, typ, flags, security))
  {
    AppendIsInsert(st.objs, Record(x, NewObject(name, typ, flags, security)));
  }

  lemma AddPropHeap(st: Store, x: uint32, name: CString, flags: byte, security: byte,
                    data: Block, v: uint32, q: uint32)
    requires WF(st) && |name| <= 15
    requires AddProp(st, x, name, flags, security, data, v, q).1.Done?
    requires v !in Contents(st.vals) && q !in Contents(st.props)
    ensures HasChain(HeapOf(st), x)
    ensures var st' := AddProp(st, x, name, flags, security, data, v, q).0;
      && UniqueFiles(st')
      && HeapOf(st') == H.AddProp(HeapOf(st), x, q, PropBody(name, flags, security, x, v, NIL), v, data)
  {
    var p := PropBody(name, flags, security, x, v, NIL);
    LinkedChain(HeapOf(st), x);
    EmptyChain(HeapOf(st), x);
    TailFound(st, x, Record(q, p));
    AppendIsInsert(st.props, Record(q, p));
    AppendIsInsert(st.vals, Record(v, ValBody(q, NIL, 0x100, data)));
    hide Linked, Chain, UniqueIds, SetNext, FindNamed;
    var i := Find(st.objs, x);
    if st.objs[i].body.propId == NIL {
      PatchIsUpdate(st.objs, i, st.objs[i].body.(propId := q));
    } else {
      SetNextIsUpdate(st.props + [Record(q, p)], st.lists[x][|st.lists[x]| - 1], q);
    }
  }

  /** Some lists make the files well formed. */
  ghost predicate WellFormed(st: Store) {
    exists lists :: WF(st.(lists := lists))
  }

  /** Comparing up to 48 characters is exact for names of at most 47. */
  lemma IsObjectExactly(o: ObjBody, name: CString, typ: uint16)
    requires |name| <= 47
    ensures IsObject(o, name, typ) <==> ObjName(o) == name && o.typ == typ
  {
  }

  function NameOf(o: Object): CString {
    UpToNul(Clip(o.nameField, o.namelen))
  }

  ghost predicate Occupied(view: map<uint32, Object>, name: string, typ: uint16) {
    exists x :: x in view && NameOf(view[x]) == name && view[x].typ == typ
  }

  lemma ObjectInView(st: Store, name: CString, typ: uint16)
    requires WF(st) && |name| <= 47
    ensures FindObject(st.objs, name, typ) < |st.objs| <==> Occupied(ViewOf(st), name, typ)
  {
    hide UpToNul, Clip, Linked, IsObject;
    var view := ViewOf(st);
    var i := FindObject(st.objs, name, typ);
    if i < |st.objs| {
      FindUnique(st.objs, i);
      IsObjectExactly(st.objs[i].body, name, typ);
      assert NameOf(view[st.objs[i].id]) == name;
    }
    if Occupied(view, name, typ) {
      var x :| x in view && NameOf(view[x]) == name && view[x].typ == typ;
      IsObjectExactly(st.objs[Find(st.objs, x)].body, name, typ);
    }
  }

  lemma NewObjectName(name: CString, typ: uint16, flags: byte, security: byte)
    requires |name| <= 47
    ensures ObjName(NewObject(name, typ, flags, security)) == name
  {
  }

  lemma WellFormedIf(st: Store)
    requires WF(st)
    ensures WellFormed(st)
  {
  }

  /** Adding an object refuses an existing name and type; otherwise the view gains one object
      without properties, provided the random id was not in use.  A used id always leaves
      files that no lists make well formed. */
  lemma AddObjectRefines(st: Store, name: CString, typ: uint16, flags: byte, security: byte, x: uint32)
    requires WF(st) && |name| <= 47 && x != NIL
    ensures ObjName(NewObject(name, typ, flags, security)) == name
    ensures var (st', reply) := AddObject(st, name, typ, flags, security, x);
      && (Occupied(ViewOf(st), name, typ) ==> reply == Failed(OBJEXISTS) && st' == st)
      && (!Occupied(ViewOf(st), name, typ) ==> reply == Done(x) && (WellFormed(st') <==> x !in ViewOf(st)))
      && (!Occupied(ViewOf(st), name, typ) && x !in ViewOf(st) ==>
          WF(st') && ViewOf(st') == ViewOf(st)[x := Object(typ, |name|, NewObject(name, typ, flags, security).nameField,
                                                             flags, security, [])])
  {
    NewObjectName(name, typ, flags, security);
    ObjectInView(st, name, typ);
    var (st', reply) := AddObject(st, name, typ, flags, security, x);
    if reply.Done? {
      var o := NewObject(name, typ, flags, security);
      AppendIsInsert(st.objs, Record(x, o));
      if x !in Contents(st.objs) {
        AddObjectHeap(st, name, typ, flags, security, x);
        AddObjectLinked(HeapOf(st), x, o);
        AddObjectView(HeapOf(st), x, o);
        WellFormedIf(st');
      }
    }
  }

  // ----- what adding a property means -------------------------------------------------------

  lemma AddPropDone(st: Store, x: uint32, name: CString, flags: byte, security: byte,
                    data: Block, v: uint32, q: uint32)
    requires WF(st) && |name| <= 15 && q != NIL && x in ViewOf(st)
    requires AddProp(st, x, name, flags, security, data, v, q).1.Done?
    requires v !in Contents(st.vals) && q !in Contents(st.props)
    ensures var st' := AddProp(st, x, name, flags, security, data, v, q).0;
      && WF(st')
      && ViewOf(st') == WithProperties(ViewOf(st), x,
           ViewOf(st)[x].properties + [Property(q, name, flags, security, data)])
  {
    var h := HeapOf(st);
    var p := PropBody(name, flags, security, x, v, NIL);
    LinkedChain(h, x);
    FlatScanIsChainScan(st, x, name);
    forall r | r in h.props && h.props[r].objectId == x ensures h.props[r].name != name {
      assert !IsNamed(st.props[Find(st.props, r)].body, x, name);
    }
    AddPropHeap(st, x, name, flags, security, data, v, q);
    AddPropLinked(h, x, q, p, v, data);
    AddPropView(h, x, q, p, v, data);
  }

  lemma AddPropIds(st: Store, x: uint32, name: CString, flags: byte, security: byte,
                   data: Block, v: uint32, q: uint32)
    requires WF(st) && |name| <= 15
    requires AddProp(st, x, name, flags, security, data, v, q).1.Done?
    ensures var st' := AddProp(st, x, name, flags, security, data, v, q).0;
      && SameIds(st.props, st'.props) && |st'.props| == |st.props| + 1 && st'.props[|st.props|].id == q
      && SameIds(st.vals, st'.vals) && |st'.vals| == |st.vals| + 1 && st'.vals[|st.vals|].id == v
  {
    hide Linked, UniqueIds, Chain, SetNext, FindNamed, Contents;
    var props := st.props + [Record(q, PropBody(name, flags, security, x, v, NIL))];
    assert SameIds(st.props, props);
  }

  lemma Collision<B>(file: seq<Record<B>>, file': seq<Record<B>>, id: uint32)
    requires SameIds(file, file') && |file'| == |file| + 1 && file'[|file|].id == id && id in Contents(file)
    ensures !UniqueIds(file')
  {
  }

  lemma AddPropCollides(st: Store, x: uint32, name: CString, flags: byte, security: byte,
                        data: Block, v: uint32, q: uint32)
    requires WF(st) && |name| <= 15
    requires AddProp(st, x, name, flags, security, data, v, q).1.Done?
    requires v in Contents(st.vals) || q in Contents(st.props)
    ensures !WellFormed(AddProp(st, x, name, flags, security, data, v, q).0)
  {
    var st' := AddProp(st, x, name, flags, security, data, v, q).0;
    AddPropIds(st, x, name, flags, security, data, v, q);
    hide AddProp, SameIds, UniqueIds, Contents, Linked;
    if v in Contents(st.vals) {
      Collision(st.vals, st'.vals, v);
    } else {
      Collision(st.props, st'.props, q);
    }
  }

  lemma AddPropOutcome(st: Store, x: uint32, name: CString, flags: byte, security: byte,
                       data: Block, v: uint32, q: uint32)
    requires WF(st) && |name| <= 15 && q != NIL && x in ViewOf(st)
    requires AddProp(st, x, name, flags, security, data, v, q).1.Done?
    ensures var st' := AddProp(st, x, name, flags, security, data, v, q).0;
      var fresh' := q !in Contents(st.props) && v !in Contents(st.vals);
      && (WellFormed(st') <==> fresh')
      && (fresh' ==> (
           && WF(st')
           && ViewOf(st') == WithProperties(ViewOf(st), x,
                ViewOf(st)[x].properties + [Property(q, name, flags, security, data)])))
  {
    var st' := AddProp(st, x, name, flags, security, data, v, q).0;
    hide *;
    if q !in Contents(st.props) && v !in Contents(st.vals) {
      AddPropDone(st, x, name, flags, security, data, v, q);
      WellFormedIf(st');
    } else {
      AddPropCollides(st, x, name, flags, security, data, v, q);
    }
  }

  /** Adding a property refuses an unknown object and an existing name; otherwise the list of
      this one object gains the property at its end, provided the two random ids were not in
      use.  A used id always leaves files that no lists make well formed. */
  lemma AddPropRefines(st: Store, x: uint32, name: CString, flags: byte, security: byte,
                       data: Block, v: uint32, q: uint32)
    requires WF(st) && |name| <= 15 && q != NIL
    ensures var (st', reply) := AddProp(st, x, name, flags, security, data, v, q);
      if x !in ViewOf(st) then reply == Failed(NOSUCHOBJECT) && st' == st
      else
        var ps := ViewOf(st)[x].properties;
        if Lookup(ps, name) < |ps| then reply == Failed(PROPEXISTS) && st' == st
        else
          && reply == Done(q)
          && (WellFormed(st') <==> q !in Contents(st.props) && v !in Contents(st.vals))
          && (q !in Contents(st.props) && v !in Contents(st.vals) ==>
              WF(st') && ViewOf(st') == WithProperties(ViewOf(st), x, ps + [Property(q, name, flags, security, data)]))
  {
    hide Linked, UniqueIds, SetNext, FindNamed, Lookup;
    if x in ViewOf(st) {
      ClipShort(name, 15);
      FlatScanIsChainScan(st, x, name);
      if AddProp(st, x, name, flags, security, data, v, q).1.Done? {
        AddPropOutcome(st, x, name, flags, security, data, v, q);
      }
    }
  }
}
