/** The bindery as a heap of records: three maps from id to record body, linked by ids.

    Each object owns a singly linked list of properties (first id in the object, next id in
    each property, NIL at the end) and each property owns one value.  The field lists holds,
    for each object, the ids its chain visits; Linked says that the links really spell these
    lists.  View is what a client of the bindery sees: every object with its properties, in
    order, without any id that only serves as a link.

    Every update below is given on the heap; the lemmas say that it keeps Linked and what it
    does to View. */
module BinderyHeap {
  import opened Bytes

  /** The 128 data bytes of a value record. */
  type Block = s: seq<byte> | |s| == 128 witness seq(128, _ => 0)

  const ZEROES: Block := seq(128, _ => 0)

  /** The 47 name bytes of an object record. */
  type NameField = s: string | |s| == 47 witness seq(47, _ => '\0')

  datatype ObjBody = ObjBody(typ: uint16, namelen: byte, nameField: NameField,
                             flags: byte, security: byte, propId: uint32)

  datatype PropBody = PropBody(name: CString, flags: byte, security: byte,
                               objectId: uint32, valueId: uint32, nextId: uint32)

  datatype ValBody = ValBody(propId: uint32, nextId: uint32, size: uint16, data: Block)

  type Lists = map<uint32, seq<uint32>>

  datatype Heap = Heap(objs: map<uint32, ObjBody>, props: map<uint32, PropBody>,
                       vals: map<uint32, ValBody>, lists: Lists)

  // ----- well-formedness ---------------------------------------------------------

  /** The id at position i of a chain, NIL after its end. */
  function At(list: seq<uint32>, i: nat): uint32
    requires i <= |list|
  {
    if i < |list| then list[i] else NIL
  }

  ghost predicate NoRepeats(list: seq<uint32>) {
    forall i, j :: 0 <= i < j < |list| ==> list[i] != list[j]
  }

  /** Following next ids from head visits exactly list, all properties of object x, and
      ends at NIL. */
  ghost predicate Chain(props: map<uint32, PropBody>, x: uint32, head: uint32, list: seq<uint32>) {
    && head == At(list, 0)
    && NoRepeats(list)
    && forall i {:trigger props[list[i]]} {:trigger list[i] in props} :: 0 <= i < |list| ==>
      list[i] in props && props[list[i]].objectId == x && props[list[i]].nextId == At(list, i + 1)
  }

  ghost predicate ChainsSpellLists(h: Heap) {
    && h.lists.Keys == h.objs.Keys
    && forall x :: x in h.objs ==> Chain(h.props, x, h.objs[x].propId, h.lists[x])
  }

  /** Every property is on the chain of the object it names. */
  ghost predicate AllOnChains(h: Heap) {
    forall q :: q in h.props ==> h.props[q].objectId in h.lists && q in h.lists[h.props[q].objectId]
  }

  /** Properties and values point at each other one to one. */
  ghost predicate ValuesPaired(props: map<uint32, PropBody>, vals: map<uint32, ValBody>) {
    && (forall q :: q in props ==> props[q].valueId in vals && vals[props[q].valueId].propId == q)
    && (forall v :: v in vals ==> vals[v].propId in props && props[vals[v].propId].valueId == v)
  }

  /** No object has two properties of one name, and names fit their field. */
  ghost predicate NamesApart(props: map<uint32, PropBody>) {
    && (forall q :: q in props ==> |props[q].name| <= 15)
    && (forall q, r :: q in props && r in props && q != r && props[q].objectId == props[r].objectId
          ==> props[q].name != props[r].name)
  }

  /** The invariant of the bindery. */
  ghost predicate Linked(h: Heap) {
    && NIL !in h.objs && NIL !in h.props
    && ChainsSpellLists(h)
    && AllOnChains(h)
    && ValuesPaired(h.props, h.vals)
    && NamesApart(h.props)
  }

  lemma {:induction false} SameChain(h: Heap, lists: Lists, x: uint32, i: nat)
    requires Linked(h) && Linked(h.(lists := lists)) && x in h.lists
    requires i <= |h.lists[x]| && i <= |lists[x]| && h.lists[x][..i] == lists[x][..i]
    requires At(h.lists[x], i) == At(lists[x], i)
    ensures h.lists[x] == lists[x]
    decreases |h.lists[x]| - i
  {
    var l, m := h.lists[x], lists[x];
    var h' := h.(lists := lists);
    assert Chain(h.props, x, h.objs[x].propId, l) && Chain(h'.props, x, h'.objs[x].propId, m);
    assert i == |m| || m[i] in h.props;
    if i < |l| {
      assert l[i] in h.props && l[i] != NIL;
      assert i < |m| && m[i] in h.props;
      assert l[..i + 1] == m[..i + 1];
      SameChain(h, lists, x, i + 1);
    } else {
      assert l == l[..i] && m == m[..i];
    }
  }

  /** The links leave no choice of lists. */
  lemma {:induction false} ListsDetermined(h: Heap, lists: Lists)
    requires Linked(h) && Linked(h.(lists := lists))
    ensures lists == h.lists
  {
    forall x | x in h.lists ensures lists[x] == h.lists[x] {
      SameChain(h, lists, x, 0);
    }
  }

  // ----- what a client sees --------------------------------------------------------

  datatype Property = Property(id: uint32, name: CString, flags: byte, security: byte, data: Block)

  datatype Object = Object(typ: uint16, namelen: byte, nameField: NameField, flags: byte, security: byte,
                           properties: seq<Property>)

  ghost predicate Readable(h: Heap, q: uint32) {
    q in h.props && h.props[q].valueId in h.vals
  }

  ghost function PropertyOf(h: Heap, q: uint32): Property
    requires Readable(h, q)
  {
    var p := h.props[q];
    Property(q, p.name, p.flags, p.security, h.vals[p.valueId].data)
  }

  ghost predicate AllReadable(h: Heap, list: seq<uint32>) {
    forall i :: 0 <= i < |list| ==> Readable(h, list[i])
  }

  ghost function Render(h: Heap, list: seq<uint32>): (r: seq<Property>)
    requires AllReadable(h, list)
    ensures |r| == |list|
    ensures forall i :: 0 <= i < |list| ==> r[i] == PropertyOf(h, list[i])
  {
    if list == [] then [] else [PropertyOf(h, list[0])] + Render(h, list[1..])
  }

  ghost predicate HasChain(h: Heap, x: uint32) {
    x in h.objs && x in h.lists && AllReadable(h, h.lists[x])
  }

  lemma LinkedChain(h: Heap, x: uint32)
    requires Linked(h) && x in h.objs
    ensures HasChain(h, x)
    ensures Chain(h.props, x, h.objs[x].propId, h.lists[x])
  {
  }

  lemma LinkedKeys(h: Heap)
    requires Linked(h)
    ensures h.lists.Keys == h.objs.Keys
    ensures forall q :: q in h.props ==> Readable(h, q)
  {
  }

  ghost function PropertiesOf(h: Heap, x: uint32): seq<Property>
    requires HasChain(h, x)
  {
    Render(h, h.lists[x])
  }

  ghost function ObjectOf(h: Heap, x: uint32): Object
    requires HasChain(h, x)
  {
    var o := h.objs[x];
    Object(o.typ, o.namelen, o.nameField, o.flags, o.security, PropertiesOf(h, x))
  }

  ghost function View(h: Heap): (view: map<uint32, Object>)
    requires Linked(h)
    ensures view.Keys == h.objs.Keys
    ensures forall x :: x in view ==> HasChain(h, x) && view[x] == ObjectOf(h, x)
  {
    map x | x in h.objs :: LinkedChain(h, x); ObjectOf(h, x)
  }

  ghost function WithProperties(view: map<uint32, Object>, x: uint32, properties: seq<Property>): map<uint32, Object>
    requires x in view
  {
    view[x := view[x].(properties := properties)]
  }

  /** The objects xs are the same in both heaps: their fields, chains and properties. */
  ghost predicate Untouched(h: Heap, h': Heap, xs: set<uint32>) {
    && xs <= h.objs.Keys && xs <= h'.objs.Keys && xs <= h.lists.Keys && xs <= h'.lists.Keys
    && (forall y :: y in xs ==> h.objs[y].(propId := 0) == h'.objs[y].(propId := 0) && h.lists[y] == h'.lists[y])
    && (forall q :: Readable(h, q) && h.props[q].objectId in xs ==>
          Readable(h', q) && PropertyOf(h, q) == PropertyOf(h', q))
  }

  lemma UntouchedIf(h: Heap, h': Heap, xs: set<uint32>)
    requires xs <= h.objs.Keys && xs <= h'.objs.Keys && xs <= h.lists.Keys && xs <= h'.lists.Keys
    requires forall y :: y in xs ==> h.objs[y].(propId := 0) == h'.objs[y].(propId := 0) && h.lists[y] == h'.lists[y]
    requires forall q :: Readable(h, q) && h.props[q].objectId in xs ==>
      Readable(h', q) && PropertyOf(h, q) == PropertyOf(h', q)
    ensures Untouched(h, h', xs)
  {
  }

  lemma UntouchedLookTheSame(h: Heap, h': Heap, xs: set<uint32>)
    requires Linked(h) && Linked(h') && Untouched(h, h', xs)
    ensures forall y :: y in xs ==> y in View(h) && y in View(h') && View(h)[y] == View(h')[y]
  {
  }

  /** When everything but object x is untouched and y stands in its place, so it is in the view. */
  lemma ObjectReplaced(h: Heap, h': Heap, x: uint32, y: uint32)
    requires Linked(h) && Linked(h') && HasChain(h', y)
    requires h'.objs.Keys == h.objs.Keys - {x} + {y} && Untouched(h, h', h.objs.Keys - {x})
    ensures View(h') == (View(h) - {x})[y := ObjectOf(h', y)]
  {
    hide Linked, HasChain, ObjectOf, PropertiesOf, View, Untouched;
    UntouchedLookTheSame(h, h', h.objs.Keys - {x});
  }

  /** When only the chain of x and properties of x differ, only the properties of x look different. */
  lemma OneObjectChanges(h: Heap, h': Heap, x: uint32)
    requires Linked(h) && Linked(h') && HasChain(h, x) && HasChain(h', x)
    requires h'.objs.Keys == h.objs.Keys && Untouched(h, h', h.objs.Keys - {x})
    requires h.objs[x].(propId := 0) == h'.objs[x].(propId := 0)
    ensures View(h') == WithProperties(View(h), x, PropertiesOf(h', x))
  {
    hide Linked, PropertiesOf, View, Untouched;
    ObjectReplaced(h, h', x, x);
  }

  // ----- adding an object ------------------------------------------------------------

  ghost function AddObject(h: Heap, x: uint32, o: ObjBody): Heap {
    h.(objs := h.objs[x := o], lists := h.lists[x := []])
  }

  lemma AddObjectLinked(h: Heap, x: uint32, o: ObjBody)
    requires Linked(h) && x !in h.objs && x != NIL && o.propId == NIL
    ensures Linked(AddObject(h, x, o))
  {
  }

  lemma AddObjectUntouched(h: Heap, x: uint32, o: ObjBody)
    requires h.lists.Keys == h.objs.Keys && x !in h.objs
    ensures Untouched(h, AddObject(h, x, o), h.objs.Keys - {x})
    ensures HasChain(AddObject(h, x, o), x)
    ensures ObjectOf(AddObject(h, x, o), x) == Object(o.typ, o.namelen, o.nameField, o.flags, o.security, [])
    ensures AddObject(h, x, o).objs.Keys == h.objs.Keys - {x} + {x}
  {
  }

  lemma AddObjectView(h: Heap, x: uint32, o: ObjBody)
    requires Linked(h) && Linked(AddObject(h, x, o)) && x !in h.objs
    ensures View(AddObject(h, x, o)) ==
            View(h)[x := Object(o.typ, o.namelen, o.nameField, o.flags, o.security, [])]
  {
    hide Linked, Chain, View;
    var h' := AddObject(h, x, o);
    LinkedKeys(h);
    AddObjectUntouched(h, x, o);
    hide *;
    ObjectReplaced(h, h', x, x);
  }

  // ----- adding a property -------------------------------------------------------------

  /** Append property q with value v at the end of the chain of object x. */
  ghost function AddProp(h: Heap, x: uint32, q: uint32, p: PropBody, v: uint32, data: Block): Heap
    requires HasChain(h, x)
  {
    var list := h.lists[x];
    var props := h.props[q := p];
    var vals := h.vals[v := ValBody(q, NIL, 0x100, data)];
    var lists := h.lists[x := list + [q]];
    if list == [] then
      Heap(h.objs[x := h.objs[x].(propId := q)], props, vals, lists)
    else
      var last := list[|list| - 1];
      Heap(h.objs, props[last := props[last].(nextId := q)], vals, lists)
  }

  ghost predicate CanAddProp(h: Heap, x: uint32, q: uint32, p: PropBody, v: uint32) {
    && HasChain(h, x)
    && q !in h.props && q != NIL && v !in h.vals
    && p.objectId == x && p.valueId == v && p.nextId == NIL && |p.name| <= 15
    && (forall r :: r in h.props && h.props[r].objectId == x ==> h.props[r].name != p.name)
  }

  /** The chain of x with a property q appended and linked from its last element. */
  lemma ChainAppend(props: map<uint32, PropBody>, x: uint32, head: uint32, list: seq<uint32>, q: uint32, p: PropBody)
    requires Chain(props, x, head, list) && q !in props && p.objectId == x && p.nextId == NIL
    ensures list == [] ==> Chain(props[q := p], x, q, list + [q])
    ensures list != [] ==> list[|list| - 1] in props
    ensures list != [] ==>
      Chain(props[q := p][list[|list| - 1] := props[list[|list| - 1]].(nextId := q)], x, head, list + [q])
  {
  }

  /** A chain is not disturbed by changes to properties of other objects. */
  lemma ChainElsewhere(props: map<uint32, PropBody>, props': map<uint32, PropBody>,
                       y: uint32, head: uint32, list: seq<uint32>)
    requires Chain(props, y, head, list)
    requires forall r :: r in props && props[r].objectId == y ==> r in props' && props'[r] == props[r]
    ensures Chain(props', y, head, list)
  {
  }

  lemma ChainObjects(props: map<uint32, PropBody>, x: uint32, head: uint32, list: seq<uint32>)
    requires Chain(props, x, head, list)
    ensures forall i :: 0 <= i < |list| ==> list[i] in props && props[list[i]].objectId == x
    ensures NoRepeats(list)
  {
  }

  lemma AddPropChains(h: Heap, x: uint32, q: uint32, p: PropBody, v: uint32, data: Block)
    requires Linked(h) && CanAddProp(h, x, q, p, v)
    ensures ChainsSpellLists(AddProp(h, x, q, p, v, data))
  {
    hide Linked;
    var h' := AddProp(h, x, q, p, v, data);
    LinkedKeys(h);
    LinkedChain(h, x);
    ChainAppend(h.props, x, h.objs[x].propId, h.lists[x], q, p);
    ChainObjects(h.props, x, h.objs[x].propId, h.lists[x]);
    hide Chain;
    forall y | y in h.objs && y != x ensures Chain(h'.props, y, h'.objs[y].propId, h'.lists[y]) {
      LinkedChain(h, y);
      ChainElsewhere(h.props, h'.props, y, h.objs[y].propId, h.lists[y]);
    }
  }

  /** Changing a next id only disturbs chains. */
  lemma RelinkKeeps(props: map<uint32, PropBody>, vals: map<uint32, ValBody>, q: uint32, next: uint32)
    requires ValuesPaired(props, vals) && NamesApart(props) && q in props
    ensures ValuesPaired(props[q := props[q].(nextId := next)], vals)
    ensures NamesApart(props[q := props[q].(nextId := next)])
  {
  }

  lemma InsertKeeps(props: map<uint32, PropBody>, vals: map<uint32, ValBody>,
                    q: uint32, p: PropBody, v: uint32, data: Block)
    requires ValuesPaired(props, vals) && NamesApart(props)
    requires q !in props && v !in vals && p.valueId == v && |p.name| <= 15
    requires forall r :: r in props && props[r].objectId == p.objectId ==> props[r].name != p.name
    ensures ValuesPaired(props[q := p], vals[v := ValBody(q, NIL, 0x100, data)])
    ensures NamesApart(props[q := p])
  {
  }

  lemma AddPropOnChains(h: Heap, x: uint32, q: uint32, p: PropBody, v: uint32, data: Block)
    requires AllOnChains(h) && CanAddProp(h, x, q, p, v)
    ensures AllOnChains(AddProp(h, x, q, p, v, data))
  {
  }

  lemma AddPropLinked(h: Heap, x: uint32, q: uint32, p: PropBody, v: uint32, data: Block)
    requires Linked(h) && CanAddProp(h, x, q, p, v)
    ensures Linked(AddProp(h, x, q, p, v, data))
  {
    hide Chain, ChainsSpellLists, AllOnChains, ValuesPaired, NamesApart;
    var list := h.lists[x];
    AddPropChains(h, x, q, p, v, data);
    AddPropOnChains(h, x, q, p, v, data);
    InsertKeeps(h.props, h.vals, q, p, v, data);
    if list != [] {
      assert Readable(h, list[|list| - 1]);
      RelinkKeeps(h.props[q := p], h.vals[v := ValBody(q, NIL, 0x100, data)], list[|list| - 1], q);
    }
  }

  lemma AddPropUntouched(h: Heap, x: uint32, q: uint32, p: PropBody, v: uint32, data: Block)
    requires CanAddProp(h, x, q, p, v) && h.lists.Keys == h.objs.Keys
    ensures var h' := AddProp(h, x, q, p, v, data);
      && (forall r :: Readable(h, r) ==> Readable(h', r) && PropertyOf(h, r) == PropertyOf(h', r))
      && Untouched(h, h', h.objs.Keys - {x})
      && h'.objs.Keys == h.objs.Keys && h.objs[x].(propId := 0) == h'.objs[x].(propId := 0)
  {
  }

  lemma AddPropOwn(h: Heap, x: uint32, q: uint32, p: PropBody, v: uint32, data: Block)
    requires CanAddProp(h, x, q, p, v) && h.lists.Keys == h.objs.Keys
    requires HasChain(AddProp(h, x, q, p, v, data), x)
    ensures PropertiesOf(AddProp(h, x, q, p, v, data), x) ==
            PropertiesOf(h, x) + [Property(q, p.name, p.flags, p.security, data)]
  {
  }

  lemma RenderAppend(h: Heap, h': Heap, list: seq<uint32>, q: uint32)
    requires AllReadable(h, list) && AllReadable(h', list + [q])
    requires forall r :: Readable(h, r) ==> Readable(h', r) && PropertyOf(h, r) == PropertyOf(h', r)
    ensures Readable(h', q)
    ensures Render(h', list + [q]) == Render(h, list) + [PropertyOf(h', q)]
  {
    hide Readable, PropertyOf;
    assert (list + [q])[|list|] == q;
  }

  lemma AddPropView(h: Heap, x: uint32, q: uint32, p: PropBody, v: uint32, data: Block)
    requires Linked(h) && CanAddProp(h, x, q, p, v) && Linked(AddProp(h, x, q, p, v, data))
    ensures View(AddProp(h, x, q, p, v, data)) == WithProperties(View(h), x,
      PropertiesOf(h, x) + [Property(q, p.name, p.flags, p.security, data)])
  {
    hide Linked, Chain;
    var h' := AddProp(h, x, q, p, v, data);
    LinkedKeys(h);
    LinkedChain(h', x);
    AddPropUntouched(h, x, q, p, v, data);
    RenderAppend(h, h', h.lists[x], q);
    hide *;
    OneObjectChanges(h, h', x);
    assert PropertiesOf(h', x) == PropertiesOf(h, x) + [Property(q, p.name, p.flags, p.security, data)] by {
      AddPropOwn(h, x, q, p, v, data);
    }
  }

  // ----- writing the data of a property --------------------------------------------------

  ghost function SetData(h: Heap, q: uint32, data: Block): Heap
    requires Readable(h, q)
  {
    var v := h.props[q].valueId;
    h.(vals := h.vals[v := h.vals[v].(data := data)])
  }

  lemma SetDataLinked(h: Heap, q: uint32, data: Block)
    requires Linked(h) && Readable(h, q)
    ensures Linked(SetData(h, q, data))
    ensures forall r :: Readable(h, r) ==> Readable(SetData(h, q, data), r)
    ensures forall r :: Readable(h, r) && r != q ==> PropertyOf(SetData(h, q, data), r) == PropertyOf(h, r)
  {
    hide Chain, NamesApart;
    assert ValuesPaired(h.props, SetData(h, q, data).vals);
  }

  /** Exactly the data of the property at position i of the chain of x is replaced. */
  lemma SetDataUntouched(h: Heap, x: uint32, i: nat, data: Block)
    requires Linked(h) && HasChain(h, x) && i < |h.lists[x]| && Readable(h, h.lists[x][i])
    ensures Untouched(h, SetData(h, h.lists[x][i], data), h.objs.Keys - {x})
  {
  }

  lemma OtherPropertiesStay(h: Heap, q: uint32, data: Block)
    requires Linked(h) && Readable(h, q)
    ensures var h' := SetData(h, q, data);
      forall r :: Readable(h, r) && r != q ==> Readable(h', r) && PropertyOf(h', r) == PropertyOf(h, r)
  {
  }

  lemma RenderSet(h: Heap, h': Heap, list: seq<uint32>, i: nat)
    requires i < |list| && AllReadable(h, list) && AllReadable(h', list) && NoRepeats(list)
    requires forall r :: Readable(h, r) && r != list[i] ==> Readable(h', r) && PropertyOf(h', r) == PropertyOf(h, r)
    ensures Readable(h', list[i]) && Render(h', list) == Render(h, list)[i := PropertyOf(h', list[i])]
  {
  }

  lemma SetDataView(h: Heap, x: uint32, i: nat, data: Block)
    requires Linked(h) && HasChain(h, x) && i < |h.lists[x]| && Readable(h, h.lists[x][i])
    ensures Linked(SetData(h, h.lists[x][i], data))
    ensures var was := PropertiesOf(h, x);
      View(SetData(h, h.lists[x][i], data)) == WithProperties(View(h), x, was[i := was[i].(data := data)])
  {
    hide Linked, Chain, Untouched;
    var list := h.lists[x];
    var q := list[i];
    var h' := SetData(h, q, data);
    SetDataLinked(h, q, data);
    LinkedChain(h, x);
    SetDataUntouched(h, x, i, data);
    OneObjectChanges(h, h', x);
    assert PropertyOf(h', q) == PropertyOf(h, q).(data := data);
    LinkedChain(h', x);
    OtherPropertiesStay(h, q, data);
    RenderSet(h, h', list, i);
  }

  // ----- deleting a property -------------------------------------------------------------

  function DropAt<T>(s: seq<T>, i: nat): (r: seq<T>)
    requires i < |s|
    ensures |r| == |s| - 1
    ensures forall j {:trigger r[j]} :: 0 <= j < |r| ==> r[j] == if j < i then s[j] else s[j + 1]
  {
    s[..i] + s[i + 1..]
  }

  /** Unlink and remove the property at position i of the chain of x, with its value. */
  ghost function DeleteProp(h: Heap, x: uint32, i: nat): Heap
    requires HasChain(h, x) && i < |h.lists[x]|
  {
    var list := h.lists[x];
    assert Readable(h, list[i]);
    var next := At(list, i + 1);
    var props := h.props - {list[i]};
    var vals := h.vals - {h.props[list[i]].valueId};
    var lists := h.lists[x := DropAt(list, i)];
    if i == 0 then
      Heap(h.objs[x := h.objs[x].(propId := next)], props, vals, lists)
    else
      assert Readable(h, list[i - 1]);
      Heap(h.objs, props[list[i - 1] := h.props[list[i - 1]].(nextId := next)], vals, lists)
  }

  lemma ChainDropFirst(props: map<uint32, PropBody>, x: uint32, head: uint32, list: seq<uint32>)
    requires Chain(props, x, head, list) && list != []
    ensures Chain(props - {list[0]}, x, At(list, 1), DropAt(list, 0))
  {
  }

  lemma ChainDropLater(props: map<uint32, PropBody>, x: uint32, head: uint32, list: seq<uint32>, i: nat)
    requires Chain(props, x, head, list) && 0 < i < |list|
    ensures list[i - 1] in props - {list[i]}
    ensures Chain((props - {list[i]})[list[i - 1] := props[list[i - 1]].(nextId := At(list, i + 1))],
                  x, head, DropAt(list, i))
  {
  }

  lemma DeletePropChains(h: Heap, x: uint32, i: nat)
    requires Linked(h) && HasChain(h, x) && i < |h.lists[x]|
    ensures ChainsSpellLists(DeleteProp(h, x, i))
  {
    hide Linked;
    var h' := DeleteProp(h, x, i);
    LinkedKeys(h);
    LinkedChain(h, x);
    if i == 0 {
      ChainDropFirst(h.props, x, h.objs[x].propId, h.lists[x]);
    } else {
      ChainDropLater(h.props, x, h.objs[x].propId, h.lists[x], i);
    }
    ChainObjects(h.props, x, h.objs[x].propId, h.lists[x]);
    hide Chain, At, DropAt;
    forall y | y in h.objs && y != x ensures Chain(h'.props, y, h'.objs[y].propId, h'.lists[y]) {
      LinkedChain(h, y);
      ChainElsewhere(h.props, h'.props, y, h.objs[y].propId, h.lists[y]);
    }
  }

  lemma DropKeeps(list: seq<uint32>, i: nat, r: uint32)
    requires i < |list| && r in list && r != list[i]
    ensures r in DropAt(list, i)
  {
  }

  lemma DeletePropOnChains(h: Heap, x: uint32, i: nat)
    requires Linked(h) && HasChain(h, x) && i < |h.lists[x]|
    ensures AllOnChains(DeleteProp(h, x, i))
  {
    LinkedChain(h, x);
    ChainObjects(h.props, x, h.objs[x].propId, h.lists[x]);
    hide Chain, ChainsSpellLists, ValuesPaired, NamesApart, DropAt, At;
    var h' := DeleteProp(h, x, i);
    var list := h.lists[x];
    forall r | r in h'.props ensures h'.props[r].objectId in h'.lists && r in h'.lists[h'.props[r].objectId] {
      assert r in h.props && r != list[i] && h'.props[r].objectId == h.props[r].objectId;
      if h.props[r].objectId == x {
        DropKeeps(list, i, r);
      }
    }
  }

  lemma RemoveKeeps(props: map<uint32, PropBody>, vals: map<uint32, ValBody>, q: uint32)
    requires ValuesPaired(props, vals) && NamesApart(props) && q in props
    ensures ValuesPaired(props - {q}, vals - {props[q].valueId})
    ensures NamesApart(props - {q})
  {
  }

  lemma DeletePropLinked(h: Heap, x: uint32, i: nat)
    requires Linked(h) && HasChain(h, x) && i < |h.lists[x]|
    ensures Linked(DeleteProp(h, x, i))
  {
    LinkedChain(h, x);
    ChainObjects(h.props, x, h.objs[x].propId, h.lists[x]);
    DeletePropChains(h, x, i);
    DeletePropOnChains(h, x, i);
    hide Chain, AllOnChains, ChainsSpellLists, ValuesPaired, NamesApart, DropAt;
    var list := h.lists[x];
    RemoveKeeps(h.props, h.vals, list[i]);
    if i > 0 {
      RelinkKeeps(h.props - {list[i]}, h.vals - {h.props[list[i]].valueId}, list[i - 1], At(list, i + 1));
    }
  }

  lemma DeletePropSame(h: Heap, x: uint32, i: nat)
    requires Linked(h) && HasChain(h, x) && i < |h.lists[x]|
    ensures forall r :: Readable(h, r) && r != h.lists[x][i] ==> Readable(DeleteProp(h, x, i), r)
    ensures forall r :: Readable(h, r) && r != h.lists[x][i] ==> PropertyOf(h, r) == PropertyOf(DeleteProp(h, x, i), r)
  {
    hide Chain, AllOnChains, ChainsSpellLists, NamesApart, DropAt;
    var q := h.lists[x][i];
    assert Readable(h, q);
    forall r | r in h.props && r != q ensures h.props[r].valueId != h.props[q].valueId {}
  }

  lemma DeletePropFields(h: Heap, x: uint32, i: nat)
    requires HasChain(h, x) && i < |h.lists[x]|
    ensures DeleteProp(h, x, i).objs.Keys == h.objs.Keys
    ensures forall y :: y in h.objs ==> DeleteProp(h, x, i).objs[y].(propId := 0) == h.objs[y].(propId := 0)
    ensures DeleteProp(h, x, i).lists == h.lists[x := DropAt(h.lists[x], i)]
  {
  }

  lemma DeletePropUntouched(h: Heap, x: uint32, i: nat)
    requires Linked(h) && HasChain(h, x) && i < |h.lists[x]|
    ensures Untouched(h, DeleteProp(h, x, i), h.objs.Keys - {x})
  {
    LinkedKeys(h);
    LinkedChain(h, x);
    ChainObjects(h.props, x, h.objs[x].propId, h.lists[x]);
    DeletePropSame(h, x, i);
    DeletePropFields(h, x, i);
    assert h.props[h.lists[x][i]].objectId == x;
    var h' := DeleteProp(h, x, i);
    hide *;
    assert forall q :: Readable(h, q) && h.props[q].objectId in h.objs.Keys - {x} ==> q != h.lists[x][i];
    UntouchedIf(h, h', h.objs.Keys - {x});
  }

  lemma RenderDrop(h: Heap, h': Heap, list: seq<uint32>, i: nat)
    requires i < |list| && AllReadable(h, list) && AllReadable(h', DropAt(list, i)) && NoRepeats(list)
    requires forall r :: Readable(h, r) && r != list[i] ==> Readable(h', r) && PropertyOf(h, r) == PropertyOf(h', r)
    ensures Render(h', DropAt(list, i)) == DropAt(Render(h, list), i)
  {
  }

  /** Exactly the property at position i of the chain of x is gone. */
  lemma DeletePropView(h: Heap, x: uint32, i: nat)
    requires Linked(h) && HasChain(h, x) && i < |h.lists[x]|
    ensures Linked(DeleteProp(h, x, i))
    ensures View(DeleteProp(h, x, i)) == WithProperties(View(h), x, DropAt(PropertiesOf(h, x), i))
  {
    var h' := DeleteProp(h, x, i);
    var list := h.lists[x];
    DeletePropLinked(h, x, i);
    DeletePropSame(h, x, i);
    LinkedChain(h, x);
    LinkedChain(h', x);
    ChainObjects(h.props, x, h.objs[x].propId, list);
    DeletePropUntouched(h, x, i);
    DeletePropFields(h, x, i);
    hide Linked, Chain, PropertyOf, Readable, DropAt, Untouched;
    RenderDrop(h, h', list, i);
    hide AllReadable, HasChain, View;
    OneObjectChanges(h, h', x);
  }

  // ----- removing and renumbering an object ------------------------------------------------

  /** Remove an object without properties. */
  ghost function RemoveObject(h: Heap, x: uint32): Heap {
    h.(objs := h.objs - {x}, lists := h.lists - {x})
  }

  lemma RemoveObjectLinked(h: Heap, x: uint32)
    requires Linked(h) && HasChain(h, x) && h.lists[x] == []
    ensures Linked(RemoveObject(h, x))
  {
  }

  lemma RemoveObjectView(h: Heap, x: uint32)
    requires Linked(h) && HasChain(h, x) && h.lists[x] == []
    ensures Linked(RemoveObject(h, x))
    ensures View(RemoveObject(h, x)) == View(h) - {x}
  {
    var h' := RemoveObject(h, x);
    RemoveObjectLinked(h, x);
    hide Linked;
    UntouchedLookTheSame(h, h', h.objs.Keys - {x});
  }

  /** Give the record of object x the id y and fields that keep its first link. */
  ghost function Rekey(h: Heap, x: uint32, y: uint32, o: ObjBody): Heap
    requires x in h.lists
  {
    h.(objs := (h.objs - {x})[y := o], lists := (h.lists - {x})[y := h.lists[x]])
  }

  lemma RekeyChains(h: Heap, x: uint32, y: uint32, o: ObjBody)
    requires ChainsSpellLists(h) && x in h.objs && o.propId == h.objs[x].propId
    requires y == x || (y !in h.objs && Chain(h.props, y, h.objs[x].propId, h.lists[x]))
    ensures ChainsSpellLists(Rekey(h, x, y, o))
  {
  }

  lemma RekeyOnChains(h: Heap, x: uint32, y: uint32, o: ObjBody)
    requires ChainsSpellLists(h) && AllOnChains(h) && x in h.objs
    requires y == x || (y !in h.objs && h.lists[x] == [])
    ensures AllOnChains(Rekey(h, x, y, o))
  {
  }

  lemma RekeyLinked(h: Heap, x: uint32, y: uint32, o: ObjBody)
    requires Linked(h) && HasChain(h, x) && o.propId == h.objs[x].propId
    requires y == x || (y !in h.objs && y != NIL && h.lists[x] == [])
    ensures Linked(Rekey(h, x, y, o))
  {
    LinkedChain(h, x);
    assert y != x ==> Chain(h.props, y, h.objs[x].propId, []);
    hide Chain, ValuesPaired, NamesApart;
    RekeyChains(h, x, y, o);
    RekeyOnChains(h, x, y, o);
  }

  lemma RekeyedObject(h: Heap, x: uint32, y: uint32, o: ObjBody)
    requires HasChain(h, x) && HasChain(Rekey(h, x, y, o), y)
    ensures ObjectOf(Rekey(h, x, y, o), y) ==
            Object(o.typ, o.namelen, o.nameField, o.flags, o.security, PropertiesOf(h, x))
  {
  }

  lemma RekeyUntouched(h: Heap, x: uint32, y: uint32, o: ObjBody)
    requires HasChain(h, x) && h.lists.Keys == h.objs.Keys && (y == x || y !in h.objs)
    ensures Untouched(h, Rekey(h, x, y, o), h.objs.Keys - {x})
  {
  }

  lemma RekeyView(h: Heap, x: uint32, y: uint32, o: ObjBody)
    requires Linked(h) && HasChain(h, x) && o.propId == h.objs[x].propId
    requires y == x || (y !in h.objs && y != NIL && h.lists[x] == [])
    ensures Linked(Rekey(h, x, y, o))
    ensures View(Rekey(h, x, y, o)) ==
            (View(h) - {x})[y := Object(o.typ, o.namelen, o.nameField, o.flags, o.security, PropertiesOf(h, x))]
  {
    hide Linked, Chain, View;
    var h' := Rekey(h, x, y, o);
    RekeyLinked(h, x, y, o);
    LinkedKeys(h);
    LinkedChain(h', y);
    RekeyedObject(h, x, y, o);
    RekeyUntouched(h, x, y, o);
    hide *;
    ObjectReplaced(h, h', x, y);
  }
}
