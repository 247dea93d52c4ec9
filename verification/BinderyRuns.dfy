/** Whole runs of bindery operations: the files stay well formed, and what a client sees is
    what the same run does to a plain map from object id to object. */
module BinderyRuns {
  import opened Bytes
  import opened RecordFiles
  import opened BinderyHeap
  import opened BinderyStore
  import S = BinderyStore
  import U = BinderyUpdate
  import D = BinderyDelete

  type View = map<uint32, Object>

  datatype Op =
    | AddObject(name: CString, typ: uint16, flags: byte, security: byte, x: uint32)
    | AddProp(x: uint32, name: CString, flags: byte, security: byte, data: Block, v: uint32, q: uint32)
    | WriteProp(x: uint32, name: CString, segno: byte, more: byte, data: Block)
    | ChangeObject(x: uint32, newId: uint32, newName: Option<CString>)
    | DeleteProp(q: uint32)
    | DeleteObject(x: uint32)

  /** What the source demands of a caller: names fit their fields, random ids are unused, and
      only an object without properties gets another, unused id. */
  ghost predicate Legal(st: Store, op: Op)
    requires WF(st)
  {
    match op
    case AddObject(name, _, _, _, x) => |name| <= 47 && x < 0x8000_0000 && x !in Contents(st.objs)
    case AddProp(_, name, _, _, _, v, q) =>
      |name| <= 15 && q < 0x8000_0000 && q !in Contents(st.props) && v !in Contents(st.vals)
    case ChangeObject(x, newId, _) =>
      newId == NIL || newId == x || x !in ViewOf(st) || (newId !in ViewOf(st) && ViewOf(st)[x].properties == [])
    case _ => true
  }

  ghost function Step(st: Store, op: Op): Store
    requires WF(st) && Legal(st, op)
  {
    match op
    case AddObject(name, typ, flags, security, x) => S.AddObject(st, name, typ, flags, security, x).0
    case AddProp(x, name, flags, security, data, v, q) => S.AddProp(st, x, name, flags, security, data, v, q).0
    case WriteProp(x, name, segno, more, data) => U.WriteProp(st, x, name, segno, more, data).0
    case ChangeObject(x, newId, newName) => U.ChangeObject(st, x, newId, newName).0
    case DeleteProp(q) => D.DeleteProp(st, q).0
    case DeleteObject(x) => D.DeleteObject(st, x).0
  }

  // ----- the same operations on the map ----------------------------------------------------

  ghost function MapAddObject(view: View, name: CString, typ: uint16, flags: byte, security: byte, x: uint32): View
    requires |name| <= 47
  {
    if Occupied(view, name, typ) then view
    else view[x := Object(typ, |name|, NewObject(name, typ, flags, security).nameField, flags, security, [])]
  }

  ghost predicate Named(view: View, x: uint32, name: CString)
    requires x in view
  {
    Lookup(view[x].properties, Clip(name, 15)) < |view[x].properties|
  }

  ghost function MapAddProp(view: View, x: uint32, name: CString, flags: byte, security: byte,
                            data: Block, q: uint32): View
  {
    if x !in view || Named(view, x, name) then view
    else WithProperties(view, x, view[x].properties + [Property(q, name, flags, security, data)])
  }

  ghost function MapWriteProp(view: View, x: uint32, name: CString, segno: byte, more: byte, data: Block): View {
    if x !in view || !Named(view, x, name) || segno != 1 || more != 0 then view
    else
      var ps := view[x].properties;
      var i := Lookup(ps, Clip(name, 15));
      WithProperties(view, x, ps[i := ps[i].(data := data)])
  }

  ghost function MapChangeObject(view: View, x: uint32, newId: uint32, newName: Option<CString>): View {
    if x !in view then view
    else
      var o := view[x];
      (view - {x})[if newId != NIL then newId else x :=
        if newName.Some? then o.(nameField := U.CopyName(o.nameField, newName.value)) else o]
  }

  function RemoveId(ps: seq<Property>, q: uint32): seq<Property> {
    if ps == [] then [] else (if ps[0].id == q then [] else [ps[0]]) + RemoveId(ps[1..], q)
  }

  ghost function MapDeleteProp(view: View, q: uint32): View {
    map x | x in view :: view[x].(properties := RemoveId(view[x].properties, q))
  }

  ghost function MapStep(view: View, op: Op): View {
    match op
    case AddObject(name, typ, flags, security, x) =>
      if |name| <= 47 then MapAddObject(view, name, typ, flags, security, x) else view
    case AddProp(x, name, flags, security, data, _, q) => MapAddProp(view, x, name, flags, security, data, q)
    case WriteProp(x, name, segno, more, data) => MapWriteProp(view, x, name, segno, more, data)
    case ChangeObject(x, newId, newName) => MapChangeObject(view, x, newId, newName)
    case DeleteProp(q) => MapDeleteProp(view, q)
    case DeleteObject(x) => view - {x}
  }

  lemma {:induction false} RemoveIdAbsent(ps: seq<Property>, q: uint32)
    requires forall j :: 0 <= j < |ps| ==> ps[j].id != q
    ensures RemoveId(ps, q) == ps
  {
    if ps != [] { RemoveIdAbsent(ps[1..], q); }
  }

  lemma {:induction false} RemoveIdIsDrop(ps: seq<Property>, i: nat, q: uint32)
    requires i < |ps| && ps[i].id == q
    requires forall j :: 0 <= j < |ps| && j != i ==> ps[j].id != q
    ensures RemoveId(ps, q) == DropAt(ps, i)
  {
    if i == 0 {
      RemoveIdAbsent(ps[1..], q);
    } else {
      RemoveIdIsDrop(ps[1..], i - 1, q);
      assert DropAt(ps, i) == [ps[0]] + DropAt(ps[1..], i - 1);
    }
  }

  /** Property ids are unique over the whole view. */
  lemma IdsInView(st: Store, x: uint32, i: nat, y: uint32, j: nat)
    requires WF(st) && x in ViewOf(st) && y in ViewOf(st) && (x != y || i != j)
    requires i < |ViewOf(st)[x].properties| && j < |ViewOf(st)[y].properties|
    ensures ViewOf(st)[x].properties[i].id != ViewOf(st)[y].properties[j].id
  {
    var h := HeapOf(st);
    D.ViewIds(st, x);
    D.ViewIds(st, y);
    LinkedChain(h, x);
    LinkedChain(h, y);
    ChainObjects(h.props, x, h.objs[x].propId, h.lists[x]);
    ChainObjects(h.props, y, h.objs[y].propId, h.lists[y]);
    hide Linked, Chain;
    assert h.props[h.lists[x][i]].objectId == x && h.props[h.lists[y][j]].objectId == y;
  }

  // ----- one step ------------------------------------------------------------------------

  ghost predicate Means(st: Store, view: View) {
    WF(st) && ViewOf(st) == view
  }

  lemma AddObjectStep(st: Store, name: CString, typ: uint16, flags: byte, security: byte, x: uint32)
    requires WF(st) && |name| <= 47 && x != NIL && x !in Contents(st.objs)
    ensures Means(S.AddObject(st, name, typ, flags, security, x).0,
                  MapAddObject(ViewOf(st), name, typ, flags, security, x))
  {
    hide WF, WellFormed, HeapOf, Linked, S.AddObject, NewObject, Occupied;
    S.AddObjectRefines(st, name, typ, flags, security, x);
    D.InView(st, x);
    hide ViewOf;
  }

  lemma AddPropStep(st: Store, x: uint32, name: CString, flags: byte, security: byte, data: Block, v: uint32, q: uint32)
    requires WF(st) && |name| <= 15 && q != NIL && q !in Contents(st.props) && v !in Contents(st.vals)
    ensures Means(S.AddProp(st, x, name, flags, security, data, v, q).0,
                  MapAddProp(ViewOf(st), x, name, flags, security, data, q))
  {
    hide WF, WellFormed, ViewOf, WithProperties, Lookup, Contents, S.AddProp;
    S.AddPropRefines(st, x, name, flags, security, data, v, q);
    ClipShort(name, 15);
  }

  lemma WritePropStep(st: Store, x: uint32, name: CString, segno: byte, more: byte, data: Block)
    requires WF(st)
    ensures Means(U.WriteProp(st, x, name, segno, more, data).0, MapWriteProp(ViewOf(st), x, name, segno, more, data))
  {
    hide WF, ViewOf, WithProperties, Lookup, Clip, U.WriteProp;
    U.WritePropRefines(st, x, name, segno, more, data);
  }

  lemma ChangeObjectStep(st: Store, x: uint32, newId: uint32, newName: Option<CString>)
    requires WF(st) && Legal(st, ChangeObject(x, newId, newName))
    ensures Means(U.ChangeObject(st, x, newId, newName).0, MapChangeObject(ViewOf(st), x, newId, newName))
  {
    hide WF, WellFormed, ViewOf, U.CopyName, U.ChangeObject;
    U.ChangeObjectRefines(st, x, newId, newName);
  }

  ghost predicate OnlyAt(view: View, x: uint32, i: nat, q: uint32) {
    forall y, j :: y in view && 0 <= j < |view[y].properties| && (y != x || j != i) ==> view[y].properties[j].id != q
  }

  lemma DeleteKnown(st: Store, x: uint32, i: nat, q: uint32)
    requires WF(st) && x in ViewOf(st) && i < |ViewOf(st)[x].properties| && ViewOf(st)[x].properties[i].id == q
    ensures WF(D.DeleteProp(st, q).0)
    ensures ViewOf(D.DeleteProp(st, q).0) == WithProperties(ViewOf(st), x, DropAt(ViewOf(st)[x].properties, i))
    ensures OnlyAt(ViewOf(st), x, i, q)
  {
    D.DeletePropRefines(st, x, i);
    hide WF, ViewOf;
    forall y, j | y in ViewOf(st) && 0 <= j < |ViewOf(st)[y].properties| && (y != x || j != i)
      ensures ViewOf(st)[y].properties[j].id != q
    {
      IdsInView(st, x, i, y, j);
    }
  }

  lemma RemovesOnly(view: View, x: uint32, i: nat, q: uint32)
    requires x in view && i < |view[x].properties| && view[x].properties[i].id == q
    requires OnlyAt(view, x, i, q)
    ensures MapDeleteProp(view, q) == WithProperties(view, x, DropAt(view[x].properties, i))
  {
    RemoveIdIsDrop(view[x].properties, i, q);
    forall y | y in view && y != x ensures RemoveId(view[y].properties, q) == view[y].properties {
      RemoveIdAbsent(view[y].properties, q);
    }
    hide DropAt, RemoveId;
  }

  lemma RemovesNothing(view: View, q: uint32)
    requires forall y, j :: y in view && 0 <= j < |view[y].properties| ==> view[y].properties[j].id != q
    ensures MapDeleteProp(view, q) == view
  {
    forall y | y in view ensures RemoveId(view[y].properties, q) == view[y].properties {
      RemoveIdAbsent(view[y].properties, q);
    }
  }

  lemma DeletePropStep(st: Store, q: uint32)
    requires WF(st)
    ensures Means(D.DeleteProp(st, q).0, MapDeleteProp(ViewOf(st), q))
  {
    D.DeleteUnknownProp(st, q);
    hide WF, ViewOf, Contents, D.DeleteProp;
    if q in Contents(st.props) {
      var x, i :| x in ViewOf(st) && 0 <= i < |ViewOf(st)[x].properties| && ViewOf(st)[x].properties[i].id == q;
      DeleteKnown(st, x, i, q);
      RemovesOnly(ViewOf(st), x, i, q);
    } else {
      RemovesNothing(ViewOf(st), q);
    }
  }

  lemma DeleteObjectStep(st: Store, x: uint32)
    requires WF(st)
    ensures Means(D.DeleteObject(st, x).0, ViewOf(st) - {x})
  {
    hide WF, ViewOf, D.DeleteObject;
    D.DeleteObjectRefines(st, x);
  }

  /** Every operation keeps the files well formed and acts on the view as on a plain map. */
  lemma StepRefines(st: Store, op: Op)
    requires WF(st) && Legal(st, op)
    ensures Means(Step(st, op), MapStep(ViewOf(st), op))
  {
    hide WF, Means, ViewOf, Contents, MapAddObject, MapAddProp, MapWriteProp, MapChangeObject, MapDeleteProp;
    match op
    case AddObject(name, typ, flags, security, x) => AddObjectStep(st, name, typ, flags, security, x);
    case AddProp(x, name, flags, security, data, v, q) => AddPropStep(st, x, name, flags, security, data, v, q);
    case WriteProp(x, name, segno, more, data) => WritePropStep(st, x, name, segno, more, data);
    case ChangeObject(x, newId, newName) => ChangeObjectStep(st, x, newId, newName);
    case DeleteProp(q) => DeletePropStep(st, q);
    case DeleteObject(x) => DeleteObjectStep(st, x);
  }

  // ----- runs ------------------------------------------------------------------------------

  /** The states of a run: each step is legal in the state it starts from. */
  ghost predicate LegalRun(st: Store, ops: seq<Op>)
    requires WF(st)
    decreases |ops|
  {
    ops == [] || (Legal(st, ops[0]) && (StepRefines(st, ops[0]); LegalRun(Step(st, ops[0]), ops[1..])))
  }

  ghost function Run(st: Store, ops: seq<Op>): Store
    requires WF(st) && LegalRun(st, ops)
    decreases |ops|
  {
    if ops == [] then st
    else
      StepRefines(st, ops[0]);
      Run(Step(st, ops[0]), ops[1..])
  }

  ghost function MapRun(view: View, ops: seq<Op>): View
    decreases |ops|
  {
    if ops == [] then view else MapRun(MapStep(view, ops[0]), ops[1..])
  }

  /** Over every run the three files stay well formed and mean what the same run makes of a
      plain map. */
  lemma {:induction false} RunRefines(st: Store, ops: seq<Op>)
    requires WF(st) && LegalRun(st, ops)
    ensures WF(Run(st, ops)) && ViewOf(Run(st, ops)) == MapRun(ViewOf(st), ops)
    decreases |ops|
  {
    hide WF, MapStep, Step, Legal;
    if ops != [] {
      StepRefines(st, ops[0]);
      RunRefines(Step(st, ops[0]), ops[1..]);
    }
  }

  // ----- names of objects ------------------------------------------------------------------

  ghost predicate SameNameAndType(a: Object, b: Object) {
    NameOf(a) == NameOf(b) && a.typ == b.typ
  }

  /** No two objects have the same name and type. */
  ghost predicate Distinct(view: View) {
    forall x, y :: x in view && y in view && x != y ==> !SameNameAndType(view[x], view[y])
  }

  function Renamed(o: Object, name: CString): Object {
    o.(nameField := U.CopyName(o.nameField, name))
  }

  /** If the operation renames an object, no other object of its type is seen under the name that
      it is seen under then. */
  ghost predicate NameStaysFree(view: View, op: Op) {
    match op
    case ChangeObject(x, _, Some(name)) =>
      x in view ==> forall y :: y in view && y != x ==> !SameNameAndType(view[y], Renamed(view[x], name))
    case _ => true
  }

  lemma AddedNameIsNew(view: View, name: CString, typ: uint16, flags: byte, security: byte, x: uint32)
    requires Distinct(view) && |name| <= 47 && x !in view
    ensures Distinct(MapAddObject(view, name, typ, flags, security, x))
  {
    NewObjectName(name, typ, flags, security);
    hide UpToNul, Clip, NewObject;
    var o := Object(typ, |name|, NewObject(name, typ, flags, security).nameField, flags, security, []);
    assert NameOf(o) == name;
    hide NameOf;
  }

  lemma OneReplaced(view: View, x: uint32, y: uint32, o: Object)
    requires Distinct(view) && x in view && (y == x || y !in view)
    ensures Distinct((view - {x})[y := o]) <==> forall z :: z in view && z != x ==> !SameNameAndType(view[z], o)
  {
    hide NameOf;
    var view' := (view - {x})[y := o];
    if Distinct(view') {
      forall z | z in view && z != x ensures !SameNameAndType(view[z], o) {
        assert z in view' && y in view' && z != y;
      }
    }
  }

  lemma ChangedNameIsFree(view: View, x: uint32, newId: uint32, newName: Option<CString>)
    requires Distinct(view) && x in view && (newId == NIL || newId == x || newId !in view)
    ensures Distinct(MapChangeObject(view, x, newId, newName)) <==> NameStaysFree(view, ChangeObject(x, newId, newName))
  {
    var y := if newId != NIL then newId else x;
    OneReplaced(view, x, y, if newName.Some? then Renamed(view[x], newName.value) else view[x]);
    if newName.None? {
      forall z | z in view && z != x ensures !SameNameAndType(view[z], view[x]) {}
    }
    hide U.CopyName, NameOf, Distinct, SameNameAndType;
  }

  lemma SameNames(view: View, view': View)
    requires view'.Keys == view.Keys
    requires forall x :: x in view ==> view'[x] == view[x].(properties := view'[x].properties)
    ensures Distinct(view') <==> Distinct(view)
  {
    assert forall x :: x in view ==> NameOf(view'[x]) == NameOf(view[x]);
    hide NameOf;
  }

  lemma FewerNames(view: View, x: uint32)
    requires Distinct(view)
    ensures Distinct(view - {x})
  {
  }

  /** Objects keep different names or types through every operation, a rename exactly when the new
      name is free. */
  lemma StepKeepsNames(st: Store, op: Op)
    requires WF(st) && Legal(st, op) && Distinct(ViewOf(st))
    ensures Distinct(MapStep(ViewOf(st), op)) <==> NameStaysFree(ViewOf(st), op)
  {
    hide WF, ViewOf, Distinct, SameNameAndType, Lookup, RemoveId, NewObject, U.CopyName, Occupied;
    var view := ViewOf(st);
    match op
    case AddObject(name, typ, flags, security, x) =>
      D.InView(st, x);
      AddedNameIsNew(view, name, typ, flags, security, x);
    case AddProp(x, _, _, _, _, _, _) => SameNames(view, MapStep(view, op));
    case WriteProp(x, _, _, _, _) => SameNames(view, MapStep(view, op));
    case ChangeObject(x, newId, newName) => if x in view { ChangedNameIsFree(view, x, newId, newName); }
    case DeleteProp(_) => SameNames(view, MapStep(view, op));
    case DeleteObject(x) => FewerNames(view, x);
  }

  /** Every rename of the run gives a free name; a run without renames qualifies. */
  ghost predicate NamesStayFree(view: View, ops: seq<Op>)
    decreases |ops|
  {
    ops == [] || (NameStaysFree(view, ops[0]) && NamesStayFree(MapStep(view, ops[0]), ops[1..]))
  }

  /** Over every run whose renames give free names no two objects get the same name and type. */
  lemma {:induction false} RunKeepsNames(st: Store, ops: seq<Op>)
    requires WF(st) && LegalRun(st, ops) && Distinct(ViewOf(st)) && NamesStayFree(ViewOf(st), ops)
    ensures WF(Run(st, ops)) && Distinct(ViewOf(Run(st, ops)))
    decreases |ops|
  {
    hide WF, Distinct, MapStep, Step, Legal, NameStaysFree;
    if ops != [] {
      StepRefines(st, ops[0]);
      StepKeepsNames(st, ops[0]);
      RunKeepsNames(Step(st, ops[0]), ops[1..]);
    }
  }

  // ----- what a run leaves alone -----------------------------------------------------------

  /** Object x has a property of this name, with id q, that holds data. */
  ghost predicate Holds(view: View, x: uint32, name: string, q: uint32, data: Block) {
    x in view
    && var ps := view[x].properties;
    var i := Lookup(ps, name);
    i < |ps| && ps[i].id == q && ps[i].data == data
  }

  /** The operations that are meant to change property q, named name, of object x. */
  predicate Touches(op: Op, x: uint32, name: string, q: uint32) {
    match op
    case WriteProp(y, other, _, _, _) => y == x && Clip(other, 15) == name
    case DeleteProp(r) => r == q
    case DeleteObject(y) => y == x
    case _ => false
  }

  lemma {:induction false} LookupAppend(ps: seq<Property>, p: Property, name: string)
    requires Lookup(ps, name) < |ps|
    ensures Lookup(ps + [p], name) == Lookup(ps, name)
  {
    var i, k := Lookup(ps, name), Lookup(ps + [p], name);
    assert (ps + [p])[i] == ps[i];
    assert k >= |ps| || (ps + [p])[k] == ps[k];
  }

  lemma LookupFirst(ps: seq<Property>, name: string)
    requires ps != []
    ensures Lookup(ps, name) == if ps[0].name == name then 0 else 1 + Lookup(ps[1..], name)
  {
  }

  lemma {:induction false} LookupRemove(ps: seq<Property>, r: uint32, name: string)
    requires Lookup(ps, name) < |ps| && ps[Lookup(ps, name)].id != r
    ensures var left := RemoveId(ps, r);
      Lookup(left, name) < |left| && left[Lookup(left, name)] == ps[Lookup(ps, name)]
  {
    hide Lookup;
    var rest := RemoveId(ps[1..], r);
    LookupFirst(ps, name);
    if ps[0].name == name {
      assert RemoveId(ps, r) == [ps[0]] + rest;
      LookupFirst([ps[0]] + rest, name);
    } else {
      LookupRemove(ps[1..], r, name);
      if ps[0].id == r {
        assert RemoveId(ps, r) == rest;
      } else {
        assert ([ps[0]] + rest)[1..] == rest;
        LookupFirst([ps[0]] + rest, name);
      }
    }
  }

  lemma LookupWrite(ps: seq<Property>, j: nat, data: Block, name: string)
    requires j < |ps| && ps[j].name != name
    ensures var written := ps[j := ps[j].(data := data)];
      Lookup(written, name) == Lookup(ps, name)
  {
    var written := ps[j := ps[j].(data := data)];
    assert forall k :: 0 <= k < |ps| ==> written[k].name == ps[k].name;
  }

  lemma AddPropLeaves(view: View, y: uint32, p: Property, x: uint32, name: string, q: uint32, data: Block)
    requires Holds(view, x, name, q, data) && y in view
    ensures Holds(WithProperties(view, y, view[y].properties + [p]), x, name, q, data)
  {
    LookupAppend(view[x].properties, p, name);
    hide Lookup;
  }

  lemma WritePropLeaves(view: View, y: uint32, j: nat, more: Block, x: uint32, name: string, q: uint32, data: Block)
    requires Holds(view, x, name, q, data) && y in view && j < |view[y].properties|
    requires y == x ==> view[y].properties[j].name != name
    ensures var ps := view[y].properties;
      Holds(WithProperties(view, y, ps[j := ps[j].(data := more)]), x, name, q, data)
  {
    if y == x { LookupWrite(view[x].properties, j, more, name); }
    hide Lookup;
  }

  lemma StepLeaves(st: Store, op: Op, x: uint32, name: string, q: uint32, data: Block)
    requires WF(st) && Legal(st, op) && !Touches(op, x, name, q)
    requires Holds(ViewOf(st), x, name, q, data)
    ensures Holds(MapStep(ViewOf(st), op), x, name, q, data)
  {
    hide WF, WellFormed, ViewOf, Lookup, RemoveId, Occupied, WithProperties, NewObject, U.CopyName;
    D.InView(st, x);
    var view := ViewOf(st);
    match op
    case AddObject(_, _, _, _, _) =>
    case AddProp(y, other, flags, security, more, _, r) =>
      hide Holds;
      if y in view { AddPropLeaves(view, y, Property(r, other, flags, security, more), x, name, q, data); }
    case WriteProp(y, other, _, _, more) =>
      hide Holds;
      if y in view && Named(view, y, other) {
        WritePropLeaves(view, y, Lookup(view[y].properties, Clip(other, 15)), more, x, name, q, data);
      }
    case ChangeObject(_, _, _) =>
    case DeleteProp(r) => LookupRemove(view[x].properties, r, name);
    case DeleteObject(_) =>
  }

  /** A property that no operation of a run touches reads back unchanged after the run. */
  lemma {:induction false} RunLeaves(st: Store, ops: seq<Op>, x: uint32, name: string, q: uint32, data: Block)
    requires WF(st) && LegalRun(st, ops)
    requires forall i :: 0 <= i < |ops| ==> !Touches(ops[i], x, name, q)
    requires Holds(ViewOf(st), x, name, q, data)
    ensures WF(Run(st, ops)) && Holds(ViewOf(Run(st, ops)), x, name, q, data)
    decreases |ops|
  {
    hide WF, Holds, MapStep, Step, Legal, Touches;
    if ops != [] {
      StepRefines(st, ops[0]);
      StepLeaves(st, ops[0], x, name, q, data);
      RunLeaves(Step(st, ops[0]), ops[1..], x, name, q, data);
    }
  }

  lemma HeldIsRead(st: Store, x: uint32, name: CString, q: uint32, data: Block)
    requires WF(st) && Holds(ViewOf(st), x, Clip(name, 15), q, data)
    ensures U.ReadProp(st, x, name) == Some(data)
  {
    hide WF, ViewOf, U.ReadProp;
    U.ReadPropRefines(st, x, name);
  }

  /** A successful write is held, under the id the property had. */
  lemma WriteIsHeld(st: Store, x: uint32, name: CString, data: Block) returns (q: uint32)
    requires WF(st) && U.WriteProp(st, x, name, 1, 0, data).1 == OK
    ensures var st' := U.WriteProp(st, x, name, 1, 0, data).0;
      WF(st') && Holds(ViewOf(st'), x, Clip(name, 15), q, data)
  {
    hide WF, ViewOf, U.WriteProp;
    U.WritePropRefines(st, x, name, 1, 0, data);
    var ps := ViewOf(st)[x].properties;
    var i := Lookup(ps, Clip(name, 15));
    q := ps[i].id;
    var written := ps[i := ps[i].(data := data)];
    assert forall k :: 0 <= k < |ps| ==> written[k].name == ps[k].name;
  }

  /** The state of the files after bindio_truncate. */
  const EMPTY := Store([], [], [], map[])

  lemma EmptyFiles()
    ensures WF(EMPTY) && ViewOf(EMPTY) == map[]
  {
    assert Contents(EMPTY.objs) == map[] && Contents(EMPTY.props) == map[] && Contents(EMPTY.vals) == map[];
  }

  /** In all files that a run leaves, every chain ends and visits exactly the properties of its
      object, each once, properties and values are paired, and the properties of an object have
      different names. */
  lemma RunChains(st: Store, ops: seq<Op>)
    requires WF(st) && LegalRun(st, ops)
    ensures var h := HeapOf(Run(st, ops));
      ChainsSpellLists(h) && AllOnChains(h) && ValuesPaired(h.props, h.vals) && NamesApart(h.props)
  {
    hide Run, Contents, UniqueIds, ChainsSpellLists, AllOnChains, ValuesPaired, NamesApart;
    RunRefines(st, ops);
  }
}
