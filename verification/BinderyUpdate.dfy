/** Reading and writing property data, and renumbering and renaming objects. */
module BinderyUpdate {
  import opened Bytes
  import opened RecordFiles
  import H = BinderyHeap
  import opened BinderyHeap
  import opened BinderyStore

  // ----- property data -------------------------------------------------------------------

  /** The data a read of property name of object x delivers. */
  function ReadProp(st: Store, x: uint32, name: CString): Option<Block> {
    var k := FindNamed(st.props, x, name);
    if k == |st.props| then None
    else
      var j := Find(st.vals, st.props[k].body.valueId);
      if j == |st.vals| then None else Some(st.vals[j].body.data)
  }

  lemma ReadPropRefines(st: Store, x: uint32, name: CString)
    requires WF(st)
    ensures ReadProp(st, x, name) ==
      if x !in ViewOf(st) then None
      else
        var ps := ViewOf(st)[x].properties;
        var i := Lookup(ps, Clip(name, 15));
        if i == |ps| then None else Some(ps[i].data)
  {
    if x in ViewOf(st) {
      FlatScanIsChainScan(st, x, name);
      var k := FindNamed(st.props, x, name);
      if k < |st.props| { PropOnChain(st, k); }
    } else {
      NoStrayProperties(st, x, name);
    }
  }

  /** Segments other than the first, and truncation, are not supported. */
  function WriteProp(st: Store, x: uint32, name: CString, segno: byte, more: byte, data: Block): (Store, byte) {
    var k := FindNamed(st.props, x, name);
    if k == |st.props| then (st, NOSUCHPROPERTY)
    else if segno != 1 || more != 0 then (st, IOERROR)
    else
      var j := Find(st.vals, st.props[k].body.valueId);
      if j == |st.vals| then (st, NOSUCHPROPERTY)
      else (st.(vals := Patched(st.vals, j, st.vals[j].body.(data := data))), OK)
  }

  lemma SetValue(vals: seq<ValRecord>, v: uint32, data: Block)
    requires UniqueIds(vals) && v in Contents(vals)
    ensures var j := Find(vals, v);
      var vals' := Patched(vals, j, vals[j].body.(data := data));
      UniqueIds(vals') && Contents(vals') == Contents(vals)[v := Contents(vals)[v].(data := data)]
  {
    PatchIsUpdate(vals, Find(vals, v), vals[Find(vals, v)].body.(data := data));
  }

  lemma WriteHeap(st: Store, x: uint32, name: CString, data: Block)
    requires WF(st) && FindNamed(st.props, x, name) < |st.props|
    ensures var (st', code) := WriteProp(st, x, name, 1, 0, data);
      var q := st.props[FindNamed(st.props, x, name)].id;
      code == OK && UniqueFiles(st') && Readable(HeapOf(st), q) && HeapOf(st') == SetData(HeapOf(st), q, data)
  {
    hide Linked, UniqueIds, IsNamed, FindNamed;
    var k := FindNamed(st.props, x, name);
    PropOnChain(st, k);
    SetValue(st.vals, st.props[k].body.valueId, data);
  }

  lemma WriteDone(st: Store, x: uint32, name: CString, data: Block)
    requires WF(st) && x in ViewOf(st) && FindNamed(st.props, x, name) < |st.props|
    ensures var (st', code) := WriteProp(st, x, name, 1, 0, data);
      var ps := ViewOf(st)[x].properties;
      var i := Lookup(ps, Clip(name, 15));
      WF(st') && code == OK && i < |ps| && ViewOf(st') == WithProperties(ViewOf(st), x, ps[i := ps[i].(data := data)])
  {
    FlatScanIsChainScan(st, x, name);
    WriteHeap(st, x, name, data);
    hide WriteProp, FindNamed, UniqueIds, Linked, Contents;
    SetDataView(HeapOf(st), x, Lookup(ViewOf(st)[x].properties, Clip(name, 15)), data);
  }

  /** A write replaces the data of exactly the named property. */
  lemma WritePropRefines(st: Store, x: uint32, name: CString, segno: byte, more: byte, data: Block)
    requires WF(st)
    ensures var (st', code) := WriteProp(st, x, name, segno, more, data);
      && WF(st')
      && if x !in ViewOf(st) then code == NOSUCHPROPERTY && st' == st
         else
           var ps := ViewOf(st)[x].properties;
           var i := Lookup(ps, Clip(name, 15));
           if i == |ps| then code == NOSUCHPROPERTY && st' == st
           else if segno != 1 || more != 0 then code == IOERROR && st' == st
           else code == OK && ViewOf(st') == WithProperties(ViewOf(st), x, ps[i := ps[i].(data := data)])
  {
    if x in ViewOf(st) {
      FlatScanIsChainScan(st, x, name);
      if FindNamed(st.props, x, name) < |st.props| && segno == 1 && more == 0 {
        WriteDone(st, x, name, data);
      }
    } else {
      NoStrayProperties(st, x, name);
    }
  }

  // ----- objects ----------------------------------------------------------------------------

  /** strncpy (field, name, 46): the last byte of the field stays. */
  function CopyName(field: NameField, name: CString): NameField {
    var clipped := Clip(name, 46);
    clipped + seq(46 - |clipped|, _ => '\0') + [field[46]]
  }

  function ChangeObject(st: Store, x: uint32, newId: uint32, newName: Option<CString>): (Store, byte) {
    var i := Find(st.objs, x);
    if i == |st.objs| then (st, NOSUCHOBJECT)
    else
      var y := if newId != NIL then newId else x;
      var o := st.objs[i].body;
      var o' := if newName.Some? then o.(nameField := CopyName(o.nameField, newName.value)) else o;
      var lists := if x in st.lists then (st.lists - {x})[y := st.lists[x]] else st.lists;
      (st.(objs := st.objs[i := Record(y, o')], lists := lists), OK)
  }

  /** A property that names no object cannot be part of well-formed files. */
  lemma StrayProperty(st: Store, q: uint32)
    requires q in Contents(st.props) && Contents(st.props)[q].objectId !in Contents(st.objs)
    ensures !WellFormed(st)
  {
  }

  /** Changing an object keeps the bindery well formed exactly when its id stays, or is new
      while the object has no properties; then the object is the same under its new id and
      name bytes. */
  lemma ChangeObjectRefines(st: Store, x: uint32, newId: uint32, newName: Option<CString>)
    requires WF(st)
    ensures var (st', code) := ChangeObject(st, x, newId, newName);
      var y := if newId != NIL then newId else x;
      if x !in ViewOf(st) then code == NOSUCHOBJECT && st' == st
      else
        var o := ViewOf(st)[x];
        var fits := y == x || (y !in ViewOf(st) && o.properties == []);
        && code == OK
        && (WellFormed(st') <==> fits)
        && (fits ==> WF(st') && ViewOf(st') == (ViewOf(st) - {x})[y :=
              if newName.Some? then o.(nameField := CopyName(o.nameField, newName.value)) else o])
  {
    var (st', code) := ChangeObject(st, x, newId, newName);
    var y := if newId != NIL then newId else x;
    if x in ViewOf(st) {
      var h := HeapOf(st);
      var i := Find(st.objs, x);
      LinkedChain(h, x);
      RenumberIsMove(st.objs, i, st'.objs[i]);
      if y == x || (y !in h.objs && h.lists[x] == []) {
        assert HeapOf(st') == Rekey(h, x, y, st'.objs[i].body);
        RekeyView(h, x, y, st'.objs[i].body);
        WellFormedIf(st');
      } else if y !in h.objs {
        assert Readable(h, h.lists[x][0]);
        StrayProperty(st', h.lists[x][0]);
      }
    }
  }

  lemma UpToNulAt(s: string, n: nat)
    requires n <= |s| && '\0' !in s[..n]
    ensures n < |s| && s[n] != '\0' ==> |UpToNul(s)| > n
    ensures n == |s| || s[n] == '\0' ==> UpToNul(s) == s[..n]
  {
  }

  /** Since the stored length is not updated and only 46 bytes are copied, a rename gives the
      object the wanted name exactly under this condition. */
  lemma RenameExactlyWhen(o: ObjBody, name: CString)
    ensures ObjName(o.(nameField := CopyName(o.nameField, name))) == name <==>
      && |name| <= o.namelen
      && (|| |name| <= 45
          || (|name| == 46 && (o.namelen == 46 || o.nameField[46] == '\0'))
          || (|name| == 47 && o.nameField[46] == name[46]))
  {
    var field := CopyName(o.nameField, name);
    var shown := Clip(field, o.namelen);
    var n := |name|;
    assert n <= 46 ==> field[..n] == name;
    if n <= o.namelen && n <= 46 {
      UpToNulAt(shown, n);
    }
  }
}
