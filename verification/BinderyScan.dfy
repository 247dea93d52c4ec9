/** The wildcard scan over the object file, which has no cursor of its own: the client passes
    back the last id it was given. */
module BinderyScan {
  import opened Bytes
  import opened RecordFiles
  import opened BinderyHeap
  import opened BinderyStore

  /** match_bind (source, dest, 47) == 0 */
  predicate MatchBind(source: CString, dest: CString) {
    source == "*" || dest == "*" || SameUpTo(source, dest, 47)
  }

  predicate Selected(o: ObjBody, name: CString, typ: uint16) {
    (o.typ == typ || typ == 0xffff) && MatchBind(ObjName(o), name)
  }

  /** First selected record at or after position from. */
  function NextSelected(objs: seq<ObjRecord>, from: nat, name: CString, typ: uint16): (i: nat)
    requires from <= |objs|
    ensures from <= i <= |objs|
    ensures i < |objs| ==> Selected(objs[i].body, name, typ)
    ensures forall j :: from <= j < i ==> !Selected(objs[j].body, name, typ)
    decreases |objs| - from
  {
    if from == |objs| || Selected(objs[from].body, name, typ) then from
    else NextSelected(objs, from + 1, name, typ)
  }

  /** Where a scan that continues after id last starts; None if there is no such object. */
  function ScanStart(objs: seq<ObjRecord>, last: uint32): (r: Option<nat>)
    ensures r.Some? ==> r.value <= |objs|
  {
    if last == NIL then Some(0)
    else if Find(objs, last) < |objs| then Some(Find(objs, last) + 1)
    else None
  }

  function ScanWild(objs: seq<ObjRecord>, name: CString, typ: uint16, last: uint32): (r: Option<ObjRecord>)
  {
    match ScanStart(objs, last)
    case None => None
    case Some(from) =>
      var i := NextSelected(objs, from, name, typ);
      if i < |objs| then Some(objs[i]) else None
  }

  /** Ids of the selected records from position from on, in file order. */
  function SelectedIds(objs: seq<ObjRecord>, from: nat, name: CString, typ: uint16): seq<uint32>
    requires from <= |objs|
    decreases |objs| - from
  {
    if from == |objs| then []
    else (if Selected(objs[from].body, name, typ) then [objs[from].id] else []) + SelectedIds(objs, from + 1, name, typ)
  }

  lemma ScanAdvances(objs: seq<ObjRecord>, name: CString, typ: uint16, last: uint32)
    requires UniqueIds(objs) && NIL !in Ids(objs) && ScanWild(objs, name, typ, last).Some?
    ensures var i := NextSelected(objs, ScanStart(objs, last).value, name, typ);
      && ScanStart(objs, last).Some? && i < |objs|
      && ScanWild(objs, name, typ, last) == Some(objs[i])
      && ScanStart(objs, objs[i].id) == Some(i + 1)
  {
  }

  /** What a client collects that starts with NIL and passes back each id until the scan fails. */
  ghost function Collected(objs: seq<ObjRecord>, name: CString, typ: uint16, last: uint32): seq<uint32>
    requires UniqueIds(objs) && NIL !in Ids(objs) && ScanStart(objs, last).Some?
    decreases |objs| - ScanStart(objs, last).value
  {
    var r := ScanWild(objs, name, typ, last);
    if r.None? then []
    else
      ScanAdvances(objs, name, typ, last);
      [r.value.id] + Collected(objs, name, typ, r.value.id)
  }

  lemma {:induction false} SkipToNext(objs: seq<ObjRecord>, from: nat, name: CString, typ: uint16)
    requires from <= |objs|
    ensures var i := NextSelected(objs, from, name, typ);
      SelectedIds(objs, from, name, typ) ==
        if i < |objs| then [objs[i].id] + SelectedIds(objs, i + 1, name, typ) else []
    decreases |objs| - from
  {
    hide Selected;
    if from < |objs| && !Selected(objs[from].body, name, typ) {
      SkipToNext(objs, from + 1, name, typ);
    }
  }

  /** The scan enumerates exactly the objects of the wanted type and name, each once, in file
      order, and then fails. */
  lemma {:induction false} ScanEnumerates(objs: seq<ObjRecord>, name: CString, typ: uint16, last: uint32)
    requires UniqueIds(objs) && NIL !in Ids(objs) && ScanStart(objs, last).Some?
    ensures Collected(objs, name, typ, last) == SelectedIds(objs, ScanStart(objs, last).value, name, typ)
    decreases |objs| - ScanStart(objs, last).value
  {
    hide Selected, UniqueIds;
    SkipToNext(objs, ScanStart(objs, last).value, name, typ);
    if ScanWild(objs, name, typ, last).Some? {
      ScanAdvances(objs, name, typ, last);
      ScanEnumerates(objs, name, typ, ScanWild(objs, name, typ, last).value.id);
    }
  }

  ghost predicate IsSelected(objs: seq<ObjRecord>, from: nat, name: CString, typ: uint16, id: uint32) {
    exists i :: from <= i < |objs| && objs[i].id == id && Selected(objs[i].body, name, typ)
  }

  lemma {:induction false} SelectedMember(objs: seq<ObjRecord>, from: nat, name: CString, typ: uint16, id: uint32)
    requires from <= |objs|
    ensures id in SelectedIds(objs, from, name, typ) <==> IsSelected(objs, from, name, typ, id)
    decreases |objs| - from
  {
    hide Selected;
    if from < |objs| {
      SelectedMember(objs, from + 1, name, typ, id);
      assert IsSelected(objs, from, name, typ, id) <==>
        (objs[from].id == id && Selected(objs[from].body, name, typ)) || IsSelected(objs, from + 1, name, typ, id);
      hide IsSelected;
    }
  }

  lemma NotSelectedAgain(objs: seq<ObjRecord>, from: nat, name: CString, typ: uint16)
    requires UniqueIds(objs) && from < |objs|
    ensures !IsSelected(objs, from + 1, name, typ, objs[from].id)
  {
  }

  lemma NoRepeatsStep(objs: seq<ObjRecord>, from: nat, name: CString, typ: uint16)
    requires from <= |objs|
    requires from < |objs| ==>
      NoRepeats(SelectedIds(objs, from + 1, name, typ)) && objs[from].id !in SelectedIds(objs, from + 1, name, typ)
    ensures NoRepeats(SelectedIds(objs, from, name, typ))
  {
    hide Selected;
  }

  /** Each collected id belongs to a selected object, and each selected object is collected
      exactly once. */
  lemma {:induction false} SelectedOnce(objs: seq<ObjRecord>, from: nat, name: CString, typ: uint16)
    requires UniqueIds(objs) && from <= |objs|
    ensures NoRepeats(SelectedIds(objs, from, name, typ))
    ensures forall id :: id in SelectedIds(objs, from, name, typ) <==> IsSelected(objs, from, name, typ, id)
    decreases |objs| - from
  {
    hide *;
    forall id ensures id in SelectedIds(objs, from, name, typ) <==> IsSelected(objs, from, name, typ, id) {
      SelectedMember(objs, from, name, typ, id);
    }
    if from < |objs| {
      SelectedOnce(objs, from + 1, name, typ);
      NotSelectedAgain(objs, from, name, typ);
    }
    NoRepeatsStep(objs, from, name, typ);
  }

  /** All ids in use on well-formed files are different from NIL, as the enumeration needs. */
  lemma WellFormedScan(st: Store, name: CString, typ: uint16)
    requires WF(st)
    ensures NIL !in Ids(st.objs)
    ensures Collected(st.objs, name, typ, NIL) == SelectedIds(st.objs, 0, name, typ)
  {
    assert NIL !in Contents(st.objs) by { hide Chain; }
    hide Linked;
    ScanEnumerates(st.objs, name, typ, NIL);
  }

  /** The objects that a scan is for: of the wanted type, or of any for 0xffff, and of the wanted
      name, or of any for "*"; an object named "*" fits every name. */
  predicate Fits(o: Object, name: CString, typ: uint16) {
    && (typ == 0xffff || o.typ == typ)
    && (name == "*" || NameOf(o) == "*" || NameOf(o) == if |name| <= 47 then name else name[..47])
  }

  lemma FitsIsSelected(o: ObjBody, seen: Object, name: CString, typ: uint16)
    requires seen.typ == o.typ && seen.namelen == o.namelen && seen.nameField == o.nameField
    ensures Selected(o, name, typ) <==> Fits(seen, name, typ)
  {
    hide UpToNul;
    ClipShort(ObjName(o), 47);
  }

  lemma SeenAt(st: Store, id: uint32)
    requires WF(st)
    ensures id in ViewOf(st) <==> Find(st.objs, id) < |st.objs|
    ensures id in ViewOf(st) ==> var o, seen := st.objs[Find(st.objs, id)].body, ViewOf(st)[id];
      seen.typ == o.typ && seen.namelen == o.namelen && seen.nameField == o.nameField
  {
    hide Linked;
  }

  lemma SelectedAt(objs: seq<ObjRecord>, name: CString, typ: uint16, id: uint32)
    requires UniqueIds(objs)
    ensures IsSelected(objs, 0, name, typ, id) <==>
      Find(objs, id) < |objs| && Selected(objs[Find(objs, id)].body, name, typ)
  {
    hide Selected;
    if IsSelected(objs, 0, name, typ, id) {
      var i :| 0 <= i < |objs| && objs[i].id == id && Selected(objs[i].body, name, typ);
      FindUnique(objs, i);
    }
  }

  /** On well-formed files a scan from the start collects every fitting object exactly once. */
  lemma ScanCollectsFitting(st: Store, name: CString, typ: uint16)
    requires WF(st)
    ensures NIL !in Ids(st.objs) && NoRepeats(Collected(st.objs, name, typ, NIL))
    ensures forall id :: id in Collected(st.objs, name, typ, NIL) <==>
      id in ViewOf(st) && Fits(ViewOf(st)[id], name, typ)
  {
    hide Linked, HeapOf, Contents, ViewOf, UniqueIds, Selected, IsSelected, Fits, Collected;
    WellFormedScan(st, name, typ);
    SelectedOnce(st.objs, 0, name, typ);
    forall id
      ensures IsSelected(st.objs, 0, name, typ, id) <==> id in ViewOf(st) && Fits(ViewOf(st)[id], name, typ)
    {
      SeenAt(st, id);
      SelectedAt(st.objs, name, typ, id);
      if id in ViewOf(st) { FitsIsSelected(st.objs[Find(st.objs, id)].body, ViewOf(st)[id], name, typ); }
    }
  }
}
