/** A small bindery that the operations can really produce: one object with two properties.  The
    lemmas about well-formed files apply to it, and deleting its first property with the
    statements as they are destroys it, whatever the unassigned records hold. */
module BinderySample {
  import opened Bytes
  import opened RecordFiles
  import opened BinderyHeap
  import opened BinderyStore
  import opened BinderyRuns
  import S = BinderyStore
  import U = BinderyUpdate
  import D = BinderyDelete
  import W = BinderyAsWritten

  const OWNER: uint32 := 7
  const NAME: CString := "GUEST"
  const FIRST: CString := "PASSWORD"
  const SECOND: CString := "GROUPS"

  function AddFirst(data: Block): Op {
    AddProp(OWNER, FIRST, 0, 0x44, data, 11, 1)
  }

  function AddSecond(data: Block): Op {
    AddProp(OWNER, SECOND, 2, 0x31, data, 12, 2)
  }

  /** Create the object, and give it two properties with the same data. */
  function Script(data: Block): seq<Op> {
    [AddObject(NAME, 1, 0, 0x31, OWNER), AddFirst(data), AddSecond(data)]
  }

  function Owner(first: uint32): ObjRecord {
    Record(OWNER, NewObject(NAME, 1, 0, 0x31).(propId := first))
  }

  function First(next: uint32): PropRecord {
    Record(1, PropBody(FIRST, 0, 0x44, OWNER, 11, next))
  }

  function Second(): PropRecord {
    Record(2, PropBody(SECOND, 2, 0x31, OWNER, 12, NIL))
  }

  function Value(v: uint32, q: uint32, data: Block): ValRecord {
    Record(v, ValBody(q, NIL, 0x100, data))
  }

  function OneObject(): Store {
    Store([Owner(NIL)], [], [], map[OWNER := []])
  }

  function OneProperty(data: Block): Store {
    Store([Owner(1)], [First(NIL)], [Value(11, 1, data)], map[OWNER := [1]])
  }

  function Sample(data: Block): Store {
    Store([Owner(1)], [First(2), Second()], [Value(11, 1, data), Value(12, 2, data)], map[OWNER := [1, 2]])
  }

  ghost predicate Leads(st: Store, op: Op, st': Store) {
    WF(st) && Legal(st, op) && Step(st, op) == st' && WF(st')
  }

  lemma OwnerIsNew()
    ensures Owner(NIL) == Record(OWNER, NewObject(NAME, 1, 0, 0x31))
  {
  }

  lemma AddsOwner()
    ensures Leads(EMPTY, AddObject(NAME, 1, 0, 0x31, OWNER), OneObject())
  {
    EmptyFiles();
    hide WF, Linked, HeapOf, NewObject;
    StepRefines(EMPTY, AddObject(NAME, 1, 0, 0x31, OWNER));
    OwnerIsNew();
    var objs: seq<ObjRecord> := [];
    var lists: Lists := map[];
    assert objs + [Owner(NIL)] == [Owner(NIL)] && lists[OWNER := []] == map[OWNER := []];
  }

  lemma AppendsFirst(data: Block)
    ensures Find(OneObject().objs, OWNER) == 0
    ensures S.Append(OneObject(), OWNER, 1, First(NIL).body, data) == OneProperty(data)
  {
    var lists: Lists := map[OWNER := []];
    assert [] + [1] == [1 as uint32];
    assert lists[OWNER := [1]] == map[OWNER := [1]];
  }

  lemma AddsFirst(data: Block)
    ensures Leads(OneObject(), AddFirst(data), OneProperty(data))
  {
    AddsOwner();
    hide WF, Linked, HeapOf;
    StepRefines(OneObject(), AddFirst(data));
    AppendsFirst(data);
    hide S.Append;
    assert Find(OneObject().objs, OWNER) == 0;
  }

  /** The second name is not the first one. */
  lemma NamesDiffer()
    ensures !IsNamed(First(NIL).body, OWNER, SECOND)
  {
    assert Clip(FIRST, 15) == FIRST && Clip(SECOND, 15) == SECOND;
  }

  lemma AppendsSecond(data: Block)
    ensures Find(OneProperty(data).objs, OWNER) == 0
    ensures S.Append(OneProperty(data), OWNER, 2, Second().body, data) == Sample(data)
  {
    var st := OneProperty(data);
    assert Find(st.props + [Second()], 1) == 0;
    var lists: Lists := map[OWNER := [1]];
    assert [1 as uint32] + [2] == [1, 2];
    assert lists[OWNER := [1, 2]] == map[OWNER := [1, 2]];
  }

  lemma AddsSecond(data: Block)
    ensures Leads(OneProperty(data), AddSecond(data), Sample(data))
  {
    AddsFirst(data);
    hide WF, Linked, HeapOf, IsNamed;
    var st := OneProperty(data);
    NamesDiffer();
    StepRefines(st, AddSecond(data));
    AppendsSecond(data);
    hide S.Append;
    assert FindNamed(st.props, OWNER, SECOND) == 1;
  }

  /** A legal run from empty files ends in the sample. */
  lemma SampleIsReached(data: Block)
    ensures WF(EMPTY) && LegalRun(EMPTY, Script(data)) && Run(EMPTY, Script(data)) == Sample(data)
  {
    hide WF, Step, Legal;
    var ops := Script(data);
    AddsOwner();
    AddsFirst(data);
    AddsSecond(data);
    assert ops[1..][0] == AddFirst(data) && ops[1..][1..] == [AddSecond(data)] && [AddSecond(data)][1..] == [];
    assert LegalRun(Sample(data), []) && Run(Sample(data), []) == Sample(data);
    assert LegalRun(OneProperty(data), [AddSecond(data)]) && Run(OneProperty(data), [AddSecond(data)]) == Sample(data);
    assert LegalRun(OneObject(), ops[1..]) && Run(OneObject(), ops[1..]) == Sample(data);
  }

  /** The repaired deletion of the first property of the sample leaves well-formed files; the
      statements as they are never do, whatever the unassigned records hold. */
  lemma SampleIsDestroyed(data: Block, junkProp: PropRecord, junkObj: ObjRecord)
    ensures WF(Sample(data)) && 1 in Contents(Sample(data).props)
    ensures WF(D.DeleteProp(Sample(data), 1).0)
    ensures !WellFormed(W.DeletePropAsWritten(Sample(data), 1, junkProp, junkObj).0)
  {
    hide WF, WellFormed, Linked, HeapOf, W.DeletePropAsWritten, D.DeleteProp;
    AddsSecond(data);
    var st := Sample(data);
    assert Find(st.props, 1) == 0;
    DeletePropStep(st, 1);
    W.WellFormedOnlyAtTheEnds(st, 1, junkProp, junkObj);
  }

  /** On the sample a write succeeds and the first property is held, so the lemmas about writes,
      reads and what runs leave alone apply to it. */
  lemma SampleHolds(data: Block, more: Block)
    ensures WF(Sample(data)) && Holds(ViewOf(Sample(data)), OWNER, Clip(FIRST, 15), 1, data)
    ensures U.WriteProp(Sample(data), OWNER, FIRST, 1, 0, more).1 == OK
  {
    hide WF, ViewOf, Linked, HeapOf, Lookup;
    var st := Sample(data);
    AddsSecond(data);
    assert Find(st.vals, 11) == 0;
    assert FindNamed(st.props, OWNER, FIRST) == 0;
    D.InView(st, OWNER);
    assert Find(st.objs, OWNER) == 0;
    U.ReadPropRefines(st, OWNER, FIRST);
    FlatScanIsChainScan(st, OWNER, FIRST);
  }
}
