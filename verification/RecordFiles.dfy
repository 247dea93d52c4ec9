/** A data file of fixed-size records that start with a 32-bit id: found by scanning from
    the front, extended at the end, patched in place, and shortened by moving the last
    record into the hole.  Every file of the bindery and every trustee file has this shape.

    Contents gives the meaning of a file as a map from id to record body; the lemmas say
    which map operation each file operation is. */
module RecordFiles {
  import opened Bytes

  datatype Record<+B> = Record(id: uint32, body: B)

  /** Index of the first record with the given id, or the length of the file. */
  function Find<B>(file: seq<Record<B>>, id: uint32): (i: nat)
    ensures i <= |file|
    ensures i < |file| ==> file[i].id == id
    ensures forall j :: 0 <= j < i ==> file[j].id != id
  {
    if file == [] || file[0].id == id then 0 else 1 + Find(file[1..], id)
  }

  ghost predicate UniqueIds<B>(file: seq<Record<B>>) {
    forall i, j :: 0 <= i < j < |file| ==> file[i].id != file[j].id
  }

  ghost function Ids<B>(file: seq<Record<B>>): set<uint32> {
    set i | 0 <= i < |file| :: file[i].id
  }

  /** What a scan of the file answers for every id. */
  ghost function Contents<B>(file: seq<Record<B>>): (m: map<uint32, B>)
    ensures forall id :: id in m <==> Find(file, id) < |file|
    ensures forall id :: id in m ==> m[id] == file[Find(file, id)].body
    ensures m.Keys == Ids(file)
  {
    map id | id in Ids(file) :: file[Find(file, id)].body
  }

  function Patched<B>(file: seq<Record<B>>, i: nat, body: B): seq<Record<B>>
    requires i < |file|
  {
    file[i := file[i].(body := body)]
  }

  /** Remove record i: the last record takes its place and the file is cut. */
  function SwapRemove<B>(file: seq<Record<B>>, i: nat): (r: seq<Record<B>>)
    requires i < |file|
    ensures |r| == |file| - 1
  {
    var last := |file| - 1;
    if i == last then file[..last] else file[i := file[last]][..last]
  }

  lemma FindUnique<B>(file: seq<Record<B>>, i: nat)
    requires UniqueIds(file) && i < |file|
    ensures Find(file, file[i].id) == i
  {
  }

  lemma AppendUnique<B>(file: seq<Record<B>>, r: Record<B>)
    requires UniqueIds(file)
    ensures UniqueIds(file + [r]) <==> r.id !in Contents(file)
  {
    var file' := file + [r];
    if r.id in Contents(file) {
      assert file'[Find(file, r.id)].id == file'[|file|].id;
    } else {
      assert forall i :: 0 <= i < |file| ==> file[i].id in Ids(file);
    }
  }

  /** A file with unique ids whose every record is an item of m, and which holds every key
      of m, means m. */
  lemma SameScans<B>(file: seq<Record<B>>, m: map<uint32, B>)
    requires UniqueIds(file)
    requires forall i :: 0 <= i < |file| ==> file[i].id in m && m[file[i].id] == file[i].body
    requires m.Keys <= Ids(file)
    ensures Contents(file) == m
  {
  }

  /** A record at the end keeps ids unique exactly when its id is new, and then it is a
      map insertion. */
  lemma AppendIsInsert<B>(file: seq<Record<B>>, r: Record<B>)
    requires UniqueIds(file)
    ensures UniqueIds(file + [r]) <==> r.id !in Contents(file)
    ensures r.id !in Contents(file) ==> Contents(file + [r]) == Contents(file)[r.id := r.body]
  {
    AppendUnique(file, r);
    var file' := file + [r];
    if r.id !in Contents(file) {
      hide UniqueIds, Contents;
      forall id | id in Contents(file)[r.id := r.body] ensures id in Ids(file') {
        assert file'[if id == r.id then |file| else Find(file, id)].id == id;
      }
      forall j | 0 <= j < |file| ensures Find(file, file[j].id) == j { FindUnique(file, j); }
      SameScans(file', Contents(file)[r.id := r.body]);
    }
  }

  lemma PatchItems<B>(file: seq<Record<B>>, i: nat, body: B)
    requires UniqueIds(file) && i < |file|
    ensures UniqueIds(Patched(file, i, body))
    ensures var file', m := Patched(file, i, body), Contents(file)[file[i].id := body];
      && (forall j :: 0 <= j < |file'| ==> file'[j].id in m && m[file'[j].id] == file'[j].body)
      && m.Keys <= Ids(file')
  {
    var file', m := Patched(file, i, body), Contents(file)[file[i].id := body];
    forall j | 0 <= j < |file'| ensures file'[j].id in m && m[file'[j].id] == file'[j].body {
      FindUnique(file, j);
    }
    forall id | id in m ensures id in Ids(file') {
      assert file'[if id == file[i].id then i else Find(file, id)].id == id;
    }
  }

  lemma PatchIsUpdate<B>(file: seq<Record<B>>, i: nat, body: B)
    requires UniqueIds(file) && i < |file|
    ensures UniqueIds(Patched(file, i, body))
    ensures Contents(Patched(file, i, body)) == Contents(file)[file[i].id := body]
  {
    PatchItems(file, i, body);
    hide UniqueIds, Contents, Ids, Patched;
    SameScans(Patched(file, i, body), Contents(file)[file[i].id := body]);
  }

  lemma SwapRemoveUnique<B>(file: seq<Record<B>>, i: nat)
    requires UniqueIds(file) && i < |file|
    ensures UniqueIds(SwapRemove(file, i))
    ensures forall j :: 0 <= j < |file| - 1 ==>
      SwapRemove(file, i)[j] == if j == i then file[|file| - 1] else file[j]
  {
  }

  lemma SwapRemoveItems<B>(file: seq<Record<B>>, i: nat)
    requires UniqueIds(file) && i < |file|
    ensures forall j :: 0 <= j < |file| - 1 ==>
      var r := SwapRemove(file, i)[j];
      r.id in Contents(file) && r.id != file[i].id && Contents(file)[r.id] == r.body
    ensures forall id :: id in Contents(file) && id != file[i].id ==> id in Ids(SwapRemove(file, i))
  {
    var file' := SwapRemove(file, i);
    var last := |file| - 1;
    forall j | 0 <= j < |file'|
      ensures file'[j].id in Contents(file) && file'[j].id != file[i].id && Contents(file)[file'[j].id] == file'[j].body
    {
      FindUnique(file, if j == i then last else j);
    }
    forall id | id in Contents(file) && id != file[i].id ensures id in Ids(file') {
      var j := Find(file, id);
      assert file'[if j == last then i else j].id == id;
    }
  }

  lemma SwapRemoveIsRemove<B>(file: seq<Record<B>>, i: nat)
    requires UniqueIds(file) && i < |file|
    ensures UniqueIds(SwapRemove(file, i))
    ensures Contents(SwapRemove(file, i)) == Contents(file) - {file[i].id}
  {
    SwapRemoveUnique(file, i);
    SwapRemoveItems(file, i);
    hide UniqueIds, Contents, SwapRemove, Ids;
    SameScans(SwapRemove(file, i), Contents(file) - {file[i].id});
  }

  lemma RenumberItems<B>(file: seq<Record<B>>, i: nat, r: Record<B>)
    requires UniqueIds(file) && i < |file| && UniqueIds(file[i := r])
    ensures var file', m := file[i := r], (Contents(file) - {file[i].id})[r.id := r.body];
      && (forall j :: 0 <= j < |file'| ==> file'[j].id in m && m[file'[j].id] == file'[j].body)
      && m.Keys <= Ids(file')
  {
    var file', m := file[i := r], (Contents(file) - {file[i].id})[r.id := r.body];
    forall j | 0 <= j < |file'| ensures file'[j].id in m && m[file'[j].id] == file'[j].body {
      if j != i {
        FindUnique(file, j);
        assert file'[j].id != file'[i].id;
      }
    }
    forall id | id in m ensures id in Ids(file') {
      assert file'[if id == r.id then i else Find(file, id)].id == id;
    }
  }

  lemma RenumberUnique<B>(file: seq<Record<B>>, i: nat, r: Record<B>)
    requires UniqueIds(file) && i < |file|
    ensures UniqueIds(file[i := r]) <==> r.id == file[i].id || r.id !in Contents(file)
    ensures UniqueIds(file[i := r]) && r.id != file[i].id ==> forall j :: 0 <= j < |file| ==> file[j].id != r.id
  {
    var file' := file[i := r];
    FindUnique(file, i);
    if r.id == file[i].id || r.id !in Contents(file) {
      assert forall j :: 0 <= j < |file| ==> file[j].id in Ids(file);
    } else {
      assert file'[i].id == file'[Find(file, r.id)].id;
    }
  }

  /** Overwriting record i by one with a new id moves the item. */
  lemma RenumberIsMove<B>(file: seq<Record<B>>, i: nat, r: Record<B>)
    requires UniqueIds(file) && i < |file|
    ensures UniqueIds(file[i := r]) <==> r.id == file[i].id || r.id !in Contents(file)
    ensures UniqueIds(file[i := r]) ==>
      Contents(file[i := r]) == (Contents(file) - {file[i].id})[r.id := r.body]
  {
    var file' := file[i := r];
    RenumberUnique(file, i, r);
    if UniqueIds(file') {
      RenumberItems(file, i, r);
      hide UniqueIds, Contents, Ids;
      SameScans(file', (Contents(file) - {file[i].id})[r.id := r.body]);
    }
  }
}
