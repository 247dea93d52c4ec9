/** Trustee files of trustee.c.  Each directory may have a file of six-byte records, an object
    id and a rights word, both high byte first; the file acts as a map from object id to
    rights.  The walk towards the volume root finds the nearest enclosing directory whose file
    has a record for the object. */
module Trustee {
  import opened Bytes
  import opened RecordFiles

  type Files = map<string, seq<byte>>
  type View = map<string, map<uint32, uint16>>

  const OK: int := 0
  const NOTFOUND: int := 0xfe
  const IOERROR: int := 0xff

  // ----- records ---------------------------------------------------------------------------

  function ConvRec(dr: seq<byte>): Record<uint16>
    requires |dr| == 6
  {
    Record(GetBE32(dr[..4]), GetBE16(dr[4..]))
  }

  function PutRec(rec: Record<uint16>): (dr: seq<byte>)
    ensures |dr| == 6
  {
    PutBE32(rec.id) + PutBE16(rec.body)
  }

  lemma RecRoundTrip(rec: Record<uint16>)
    ensures ConvRec(PutRec(rec)) == rec
  {
    BE32RoundTrip(rec.id);
    BE16RoundTrip(rec.body);
    assert PutRec(rec)[..4] == PutBE32(rec.id) && PutRec(rec)[4..] == PutBE16(rec.body);
  }

  /** The records that successive reads of six bytes deliver. */
  function Records(f: seq<byte>): (r: seq<Record<uint16>>)
    ensures |r| == |f| / 6
  {
    seq(|f| / 6, i requires 0 <= i < |f| / 6 => ConvRec(f[6 * i..6 * i + 6]))
  }

  predicate Whole(f: seq<byte>) {
    |f| % 6 == 0
  }

  lemma RecordsAppend(f: seq<byte>, rec: Record<uint16>)
    requires Whole(f)
    ensures Whole(f + PutRec(rec)) && Records(f + PutRec(rec)) == Records(f) + [rec]
  {
    hide ConvRec, PutRec;
    var f' := f + PutRec(rec);
    var n := |f| / 6;
    forall i | 0 <= i <= n ensures Records(f')[i] == (Records(f) + [rec])[i] {
      if i < n {
        assert f'[6 * i..6 * i + 6] == f[6 * i..6 * i + 6];
      } else {
        assert f'[6 * n..6 * n + 6] == PutRec(rec);
        RecRoundTrip(rec);
      }
    }
  }

  /** f with record i overwritten. */
  function Overwritten(f: seq<byte>, i: nat, dr: seq<byte>): (r: seq<byte>)
    requires 6 * i + 6 <= |f| && |dr| == 6
    ensures |r| == |f|
  {
    f[..6 * i] + dr + f[6 * i + 6..]
  }

  lemma RecordsOverwrite(f: seq<byte>, i: nat, dr: seq<byte>)
    requires 6 * i + 6 <= |f| && |dr| == 6
    ensures Records(Overwritten(f, i, dr)) == Records(f)[i := ConvRec(dr)]
  {
    hide ConvRec;
    var f' := Overwritten(f, i, dr);
    forall j | 0 <= j < |f| / 6 ensures Records(f')[j] == Records(f)[i := ConvRec(dr)][j] {
      if j == i {
        assert f'[6 * j..6 * j + 6] == dr;
      } else {
        assert f'[6 * j..6 * j + 6] == f[6 * j..6 * j + 6];
      }
    }
  }

  lemma RecordsCut(f: seq<byte>, n: nat)
    requires 6 * n <= |f|
    ensures Records(f[..6 * n]) == Records(f)[..n]
  {
    hide ConvRec;
    forall j | 0 <= j < n ensures Records(f[..6 * n])[j] == Records(f)[j] {
      assert f[..6 * n][6 * j..6 * j + 6] == f[6 * j..6 * j + 6];
    }
  }

  // ----- one file --------------------------------------------------------------------------

  function GrantedFile(f: seq<byte>, x: uint32, rights: uint16): seq<byte> {
    var i := Find(Records(f), x);
    if i < |f| / 6 then Overwritten(f, i, PutRec(Record(x, rights))) else f + PutRec(Record(x, rights))
  }

  /** The record of x and rights at place i, high bytes first. */
  predicate BytesAt(f: seq<byte>, i: nat, x: uint32, rights: uint16) {
    && 6 * i + 6 <= |f|
    && x == ((f[6 * i] as int * 256 + f[6 * i + 1]) * 256 + f[6 * i + 2]) * 256 + f[6 * i + 3]
    && rights == f[6 * i + 4] as int * 256 + f[6 * i + 5]
  }

  /** A grant leaves the record's bytes at some place, and every other record as it was. */
  lemma GrantedBytes(f: seq<byte>, x: uint32, rights: uint16)
    requires Whole(f)
    ensures var f' := GrantedFile(f, x, rights);
      exists i: nat :: BytesAt(f', i, x, rights) && 6 * i <= |f| && f'[..6 * i] == f[..6 * i] &&
        if 6 * i < |f| then |f'| == |f| && f'[6 * i + 6..] == f[6 * i + 6..] else |f'| == 6 * i + 6
  {
    hide ConvRec, Records, PutBE32, PutBE16;
    var f', i, dr := GrantedFile(f, x, rights), Find(Records(f), x), PutRec(Record(x, rights));
    HighByteFirst(x, rights);
    assert f'[6 * i..6 * i + 6] == dr;
    assert f'[6 * i] == dr[0] && f'[6 * i + 1] == dr[1] && f'[6 * i + 2] == dr[2] && f'[6 * i + 3] == dr[3];
    assert f'[6 * i + 4] == dr[4] && f'[6 * i + 5] == dr[5];
    assert BytesAt(f', i, x, rights);
    assert f'[..6 * i] == f[..6 * i];
  }

  function RemovedFile(f: seq<byte>, x: uint32): seq<byte> {
    var i, n := Find(Records(f), x), |f| / 6;
    if i == n then f
    else if i == n - 1 then f[..6 * i]
    else Overwritten(f, i, f[6 * (n - 1)..6 * (n - 1) + 6])[..6 * (n - 1)]
  }

  ghost predicate Tidy(f: seq<byte>) {
    Whole(f) && UniqueIds(Records(f))
  }

  ghost function Meaning(f: seq<byte>): map<uint32, uint16> {
    Contents(Records(f))
  }

  /** Granting is map update. */
  lemma GrantIsUpdate(f: seq<byte>, x: uint32, rights: uint16)
    requires Tidy(f)
    ensures Tidy(GrantedFile(f, x, rights))
    ensures Meaning(GrantedFile(f, x, rights)) == Meaning(f)[x := rights]
  {
    var rec := Record(x, rights);
    var i := Find(Records(f), x);
    RecRoundTrip(rec);
    hide ConvRec, PutRec, Records, Overwritten, UniqueIds, Contents;
    if i < |f| / 6 {
      RecordsOverwrite(f, i, PutRec(rec));
      PatchIsUpdate(Records(f), i, rights);
    } else {
      RecordsAppend(f, rec);
      AppendIsInsert(Records(f), rec);
    }
  }

  lemma RemovedRecords(f: seq<byte>, x: uint32)
    requires Whole(f) && Find(Records(f), x) < |f| / 6
    ensures Whole(RemovedFile(f, x))
    ensures Records(RemovedFile(f, x)) == SwapRemove(Records(f), Find(Records(f), x))
  {
    hide ConvRec;
    var i, n := Find(Records(f), x), |f| / 6;
    if i == n - 1 {
      RecordsCut(f, i);
    } else {
      var dr := f[6 * (n - 1)..6 * (n - 1) + 6];
      RecordsOverwrite(f, i, dr);
      RecordsCut(Overwritten(f, i, dr), n - 1);
    }
  }

  /** Moving the last record into the hole is map removal. */
  lemma RemoveIsRemoval(f: seq<byte>, x: uint32)
    requires Tidy(f)
    ensures Tidy(RemovedFile(f, x))
    ensures Meaning(RemovedFile(f, x)) == Meaning(f) - {x}
  {
    var i, n := Find(Records(f), x), |f| / 6;
    if i < n {
      RemovedRecords(f, x);
      hide Records, UniqueIds, Contents, SwapRemove;
      SwapRemoveIsRemove(Records(f), i);
    }
  }

  // ----- all directories ---------------------------------------------------------------------

  ghost predicate Valid(files: Files) {
    forall d :: d in files ==> Tidy(files[d])
  }

  ghost function ViewOf(files: Files): View {
    map d | d in files :: Meaning(files[d])
  }

  /** The rights that the file of directory dir records for object x. */
  function Grab(files: Files, dir: string, x: uint32): Option<uint16> {
    if dir !in files then None
    else
      var i := Find(Records(files[dir]), x);
      if i < |files[dir]| / 6 then Some(Records(files[dir])[i].body) else None
  }

  function Granted(files: Files, dir: string, x: uint32, rights: uint16): Files {
    files[dir := GrantedFile(if dir in files then files[dir] else [], x, rights)]
  }

  function Removed(files: Files, dir: string, x: uint32): Files {
    if dir in files then files[dir := RemovedFile(files[dir], x)] else files
  }

  ghost function MapGrant(view: View, dir: string, x: uint32, rights: uint16): View {
    view[dir := (if dir in view then view[dir] else map[])[x := rights]]
  }

  ghost function MapRemove(view: View, dir: string, x: uint32): View {
    if dir in view then view[dir := view[dir] - {x}] else view
  }

  /** Reading a right is lookup. */
  lemma GrabIsLookup(files: Files, dir: string, x: uint32)
    ensures Grab(files, dir, x) ==
      if dir in ViewOf(files) && x in ViewOf(files)[dir] then Some(ViewOf(files)[dir][x]) else None
  {
  }

  lemma NewFile()
    ensures Tidy([]) && Meaning([]) == map[]
  {
  }

  lemma GrantRefines(files: Files, dir: string, x: uint32, rights: uint16)
    requires Valid(files)
    ensures Valid(Granted(files, dir, x, rights))
    ensures ViewOf(Granted(files, dir, x, rights)) == MapGrant(ViewOf(files), dir, x, rights)
  {
    hide Tidy, Meaning, GrantedFile;
    NewFile();
    GrantIsUpdate(if dir in files then files[dir] else [], x, rights);
  }

  lemma RemoveRefines(files: Files, dir: string, x: uint32)
    requires Valid(files)
    ensures Valid(Removed(files, dir, x))
    ensures ViewOf(Removed(files, dir, x)) == MapRemove(ViewOf(files), dir, x)
  {
    hide Tidy, Meaning, RemovedFile;
    if dir in files { RemoveIsRemoval(files[dir], x); }
  }

  datatype Op = Grant(dir: string, x: uint32, rights: uint16) | Remove(dir: string, x: uint32)

  function Run(files: Files, ops: seq<Op>): Files
    decreases |ops|
  {
    if ops == [] then files
    else
      var next := match ops[0]
        case Grant(dir, x, rights) => Granted(files, dir, x, rights)
        case Remove(dir, x) => Removed(files, dir, x);
      Run(next, ops[1..])
  }

  ghost function MapRun(view: View, ops: seq<Op>): View
    decreases |ops|
  {
    if ops == [] then view
    else
      var next := match ops[0]
        case Grant(dir, x, rights) => MapGrant(view, dir, x, rights)
        case Remove(dir, x) => MapRemove(view, dir, x);
      MapRun(next, ops[1..])
  }

  /** Over every run of grants and removals ids stay unique in every file, and the files mean
      what the same run makes of a map. */
  lemma {:induction false} RunRefines(files: Files, ops: seq<Op>)
    requires Valid(files)
    ensures Valid(Run(files, ops)) && ViewOf(Run(files, ops)) == MapRun(ViewOf(files), ops)
    decreases |ops|
  {
    hide Valid, ViewOf, Granted, Removed, MapGrant, MapRemove;
    if ops != [] {
      match ops[0]
      case Grant(dir, x, rights) =>
        GrantRefines(files, dir, x, rights);
        RunRefines(Granted(files, dir, x, rights), ops[1..]);
      case Remove(dir, x) =>
        RemoveRefines(files, dir, x);
        RunRefines(Removed(files, dir, x), ops[1..]);
    }
  }

  lemma ViewKeys(files: Files)
    ensures ViewOf(files).Keys == files.Keys
  {
  }

  lemma GrabGranted(files: Files, dir: string, x: uint32, rights: uint16, e: string, y: uint32)
    requires Valid(files)
    ensures Grab(Granted(files, dir, x, rights), e, y) == if e == dir && y == x then Some(rights) else Grab(files, e, y)
  {
    hide Valid, ViewOf, Granted, Grab;
    GrantRefines(files, dir, x, rights);
    GrabIsLookup(files, e, y);
    GrabIsLookup(Granted(files, dir, x, rights), e, y);
    ViewKeys(files);
  }

  lemma GrabRemoved(files: Files, dir: string, x: uint32, e: string, y: uint32)
    requires Valid(files)
    ensures Grab(Removed(files, dir, x), e, y) == if e == dir && y == x then None else Grab(files, e, y)
  {
    hide Valid, ViewOf, Removed, Grab;
    RemoveRefines(files, dir, x);
    GrabIsLookup(files, e, y);
    GrabIsLookup(Removed(files, dir, x), e, y);
  }

  // ----- the walk towards the root -----------------------------------------------------------

  datatype Verdict = Found(rights: uint16) | NoRecord | Lost

  /** strrchr (p, '/'), or the length if there is no slash. */
  function LastSlash(p: string): (i: nat)
    ensures i <= |p|
    ensures i < |p| ==> p[i] == '/' && forall j :: i < j < |p| ==> p[j] != '/'
    ensures i == |p| ==> '/' !in p
  {
    if p == [] then 0
    else if p[|p| - 1] == '/' then |p| - 1
    else
      var i := LastSlash(p[..|p| - 1]);
      if i == |p| - 1 then |p| else i
  }

  function Scan(files: Files, root: string, path: string, x: uint32): Verdict
    decreases |path|, 1
  {
    var grabbed := Grab(files, path, x);
    if grabbed.Some? then Found(grabbed.value) else ScanAbove(files, root, path, x)
  }

  /** What the walk answers when it leaves path. */
  function ScanAbove(files: Files, root: string, path: string, x: uint32): Verdict
    decreases |path|, 0
  {
    var i := LastSlash(path);
    if i == |path| then Lost else if path == root then NoRecord else Scan(files, root, path[..i], x)
  }

  /** Directory d is path or one of its ancestors. */
  predicate Encloses(d: string, path: string) {
    d == path || d + "/" <= path
  }

  /** d encloses path and is not above the volume root. */
  predicate OnTheWay(root: string, path: string, d: string) {
    Encloses(d, path) && (Encloses(root, path) ==> |root| <= |d|)
  }

  ghost predicate NoneNearer(files: Files, root: string, path: string, x: uint32, d: string) {
    forall e :: OnTheWay(root, path, e) && |e| > |d| ==> Grab(files, e, x).None?
  }

  /** The nearest directory on the way with a record for x. */
  ghost predicate Decides(files: Files, root: string, path: string, x: uint32, d: string) {
    && OnTheWay(root, path, d)
    && Grab(files, d, x).Some?
    && NoneNearer(files, root, path, x, d)
  }

  lemma EnclosesMeans(d: string, path: string)
    ensures Encloses(d, path) <==> d == path || (|d| < |path| && path[..|d|] == d && path[|d|] == '/')
  {
  }

  lemma EnclosesStep(d: string, path: string)
    ensures var i := LastSlash(path);
      Encloses(d, path) <==> d == path || (i < |path| && Encloses(d, path[..i]))
  {
    hide Encloses, LastSlash;
    var i := LastSlash(path);
    EnclosesMeans(d, path);
    if i < |path| {
      EnclosesMeans(d, path[..i]);
      assert |d| < i ==> path[..i][..|d|] == path[..|d|];
    }
  }

  lemma OnTheWayStep(root: string, path: string, d: string)
    ensures var i := LastSlash(path);
      OnTheWay(root, path, d) <==> d == path || (i < |path| && path != root && OnTheWay(root, path[..i], d))
  {
    EnclosesStep(d, path);
    EnclosesStep(root, path);
    assert forall e :: Encloses(e, path) ==> |e| <= |path|;
  }

  lemma Shorter(root: string, path: string, d: string)
    requires OnTheWay(root, path, d)
    ensures |d| <= |path|
    ensures |d| == |path| ==> d == path
  {
  }

  /** One step of the walk, in terms of the directories on the way. */
  lemma WalkStep(files: Files, root: string, path: string, x: uint32)
    ensures var i := LastSlash(path);
      var onwards := i < |path| && path != root;
      && i <= |path| && (i == |path| <==> '/' !in path)
      && OnTheWay(root, path, path)
      && (Encloses(root, path) <==> root == path || (i < |path| && Encloses(root, path[..i])))
      && (Grab(files, path, x).Some? ==> forall d :: Decides(files, root, path, x, d) <==> d == path)
      && (Grab(files, path, x).None? && onwards ==>
            (forall d :: Decides(files, root, path, x, d) <==> Decides(files, root, path[..i], x, d)))
      && (onwards ==> forall d :: OnTheWay(root, path, d) <==> d == path || OnTheWay(root, path[..i], d))
      && (!onwards ==> forall d :: OnTheWay(root, path, d) <==> d == path)
      && (Grab(files, path, x).None? && !onwards ==> forall d :: !Decides(files, root, path, x, d))
  {
    hide Grab, Encloses;
    EnclosesStep(root, path);
    forall d ensures OnTheWay(root, path, d) ==> |d| <= |path| && (|d| == |path| ==> d == path) {
      if OnTheWay(root, path, d) { Shorter(root, path, d); }
    }
    forall d
      ensures var i := LastSlash(path);
        OnTheWay(root, path, d) <==> d == path || (i < |path| && path != root && OnTheWay(root, path[..i], d))
    {
      OnTheWayStep(root, path, d);
    }
    hide OnTheWay;
  }

  /** The walk ends, and its answer is the record of the nearest directory on the way; it says
      "no record" exactly when a path under a root with a slash has none. */
  lemma {:induction false} ScanFindsNearest(files: Files, root: string, path: string, x: uint32)
    ensures forall r: uint16 :: Scan(files, root, path, x) == Found(r) <==>
      exists d :: Decides(files, root, path, x, d) && Grab(files, d, x) == Some(r)
    ensures Scan(files, root, path, x) == NoRecord <==>
      && Encloses(root, path) && '/' in root
      && forall d :: OnTheWay(root, path, d) ==> Grab(files, d, x).None?
    decreases |path|
  {
    hide Grab, OnTheWay, Encloses, LastSlash;
    var i := LastSlash(path);
    WalkStep(files, root, path, x);
    if Grab(files, path, x).None? && i < |path| && path != root {
      ScanFindsNearest(files, root, path[..i], x);
    }
  }

  // ----- what a grant or a removal changes ------------------------------------------------------

  lemma NearerStep(files: Files, root: string, path: string, x: uint32, d: string)
    ensures var i := LastSlash(path);
      OnTheWay(root, path, d) && NoneNearer(files, root, path, x, d) <==>
        || d == path
        || (&& i < |path| && path != root && OnTheWay(root, path[..i], d)
            && Grab(files, path, x).None? && NoneNearer(files, root, path[..i], x, d))
  {
    hide Grab, OnTheWay, Encloses, LastSlash, Decides;
    WalkStep(files, root, path, x);
    forall e ensures OnTheWay(root, path, e) ==> |e| <= |path| && (|e| == |path| ==> e == path) {
      if OnTheWay(root, path, e) { Shorter(root, path, e); }
    }
  }

  /** A grant in directory dir changes exactly the answers for this object and for paths that
      have dir on their way and no record nearer. */
  lemma {:induction false} GrantChangesOnly(files: Files, dir: string, x: uint32, rights: uint16,
                                            root: string, path: string, y: uint32)
    requires Valid(files)
    ensures Scan(Granted(files, dir, x, rights), root, path, y) ==
      if y == x && OnTheWay(root, path, dir) && NoneNearer(files, root, path, x, dir) then Found(rights)
      else Scan(files, root, path, y)
    decreases |path|
  {
    hide Valid, Granted, Grab, OnTheWay, Encloses, LastSlash;
    var i := LastSlash(path);
    GrabGranted(files, dir, x, rights, path, y);
    WalkStep(files, root, path, x);
    NearerStep(files, root, path, x, dir);
    if i < |path| && path != root {
      GrantChangesOnly(files, dir, x, rights, root, path[..i], y);
    }
  }

  lemma ShortCannotDecide(files: Files, root: string, path: string, x: uint32, d: string)
    requires |d| > |path|
    ensures !Decides(files, root, path, x, d)
  {
  }

  /** A removal in directory dir changes exactly the answers that its record decided; they
      become what the rest of the walk answers. */
  lemma {:induction false} RemoveChangesOnly(files: Files, dir: string, x: uint32,
                                             root: string, path: string, y: uint32)
    requires Valid(files)
    ensures Scan(Removed(files, dir, x), root, path, y) ==
      if y == x && Decides(files, root, path, x, dir) then ScanAbove(files, root, dir, x)
      else Scan(files, root, path, y)
    decreases |path|
  {
    hide Valid, Removed, Grab, OnTheWay, Encloses, Decides, LastSlash;
    var i := LastSlash(path);
    GrabRemoved(files, dir, x, path, y);
    WalkStep(files, root, path, x);
    if i < |path| && path != root {
      RemoveChangesOnly(files, dir, x, root, path[..i], y);
      ShortCannotDecide(files, root, path[..i], x, path);
    }
  }

  // ----- the operations as written ---------------------------------------------------------------

  lemma Extend(f: seq<byte>, n: nat, x: uint32)
    requires n < |f| / 6 && forall j :: 0 <= j < n ==> Records(f)[j].id != x
    ensures var rec := ConvRec(f[6 * n..6 * n + 6]);
      && Records(f)[n] == rec
      && (rec.id == x ==> Find(Records(f), x) == n)
  {
  }

  lemma Absent(f: seq<byte>, x: uint32)
    requires forall j :: 0 <= j < |f| / 6 ==> Records(f)[j].id != x
    ensures Find(Records(f), x) == |f| / 6
  {
  }

  lemma SameId(dr: seq<byte>, x: uint32, rights: uint16)
    requires |dr| == 6 && ConvRec(dr).id == x
    ensures dr[..4] + PutBE16(rights) == PutRec(Record(x, rights))
  {
    BE32Inverse(dr[..4]);
  }

  /** The trustee files of one volume, by directory.  A file handle is a directory and a
      position. */
  class Volume {
    const root: string

    var files: Files

    constructor (root: string)
      ensures this.root == root && files == map[]
    {
      this.root := root;
      files := map[];
    }

    method GrabRights(dir: string, x: uint32) returns (r: Option<uint16>)
      ensures r == Grab(files, dir, x)
    {
      hide ConvRec, Records;
      if dir !in files {
        return None;
      }
      var f, pos := files[dir], 0;
      ghost var n := 0;
      while pos + 6 <= |f|
        invariant pos == 6 * n <= |f| && files == old(files)
        invariant forall j :: 0 <= j < n ==> Records(f)[j].id != x
      {
        var rec := ConvRec(f[pos..pos + 6]);
        Extend(f, n, x);
        pos := pos + 6;
        n := n + 1;
        if rec.id == x {
          return Some(rec.body);
        }
      }
      Absent(f, x);
      return None;
    }

    method ScanRights(x: uint32, start: string) returns (v: Verdict)
      ensures v == Scan(files, root, start, x)
    {
      hide Grab, LastSlash;
      var path := start;
      while true
        invariant Scan(files, root, path, x) == Scan(files, root, start, x)
        decreases |path|
      {
        var grabbed := GrabRights(path, x);
        if grabbed.Some? {
          return Found(grabbed.value);
        }
        var i := LastSlash(path);
        if i < |path| {
          if path == root {
            return NoRecord;
          }
          path := path[..i];
        } else {
          break;
        }
      }
      return Lost;
    }

    /** A missing file is created first. */
    method GrantRight(dir: string, x: uint32, rights: uint16) returns (code: int)
      requires dir in files ==> Whole(files[dir])
      modifies this
      ensures files == Granted(old(files), dir, x, rights) && code == OK
    {
      hide ConvRec, Records;
      var f, pos := if dir in files then files[dir] else [], 0;
      ghost var n := 0;
      while pos + 6 <= |f|
        invariant pos == 6 * n <= |f| && files == old(files)
        invariant forall j :: 0 <= j < n ==> Records(f)[j].id != x
      {
        var dr := f[pos..pos + 6];
        Extend(f, n, x);
        pos := pos + 6;
        if ConvRec(dr).id == x {
          SameId(dr, x, rights);
          dr := dr[..4] + PutBE16(rights);
          files := files[dir := f[..pos - 6] + dr + f[pos..]];
          return OK;
        }
        n := n + 1;
      }
      Absent(f, x);
      files := files[dir := f + PutRec(Record(x, rights))];
      return OK;
    }

    /** junk stands for the object id in the unassigned local record; it decides only how the
        removal from an empty file fails. */
    method RemoveRight(dir: string, x: uint32, junk: uint32) returns (code: int)
      requires dir in files ==> Whole(files[dir])
      modifies this
      ensures files == Removed(old(files), dir, x)
      ensures code == OK <==> Grab(old(files), dir, x).Some?
      ensures code == IOERROR <==> dir !in old(files) || (old(files)[dir] == [] && junk == x)
      ensures code in {OK, NOTFOUND, IOERROR}
    {
      hide ConvRec, Records;
      if dir !in files {
        return IOERROR;
      }
      var f, id, pos := files[dir], junk, 0;
      ghost var n := 0;
      while pos + 6 <= |f|
        invariant pos == 6 * n <= |f| && files == old(files)
        invariant forall j :: 0 <= j < n ==> Records(f)[j].id != x
        invariant n > 0 ==> id != x
        invariant n == 0 ==> id == junk
      {
        id := ConvRec(f[pos..pos + 6]).id;
        Extend(f, n, x);
        pos := pos + 6;
        if id == x {
          break;
        }
        n := n + 1;
      }
      if pos == 6 * n { Absent(f, x); }
      if id != x {
        assert files == files[dir := f];
        return NOTFOUND;
      }
      var last := |f| - 6;
      pos := pos - 6;
      if pos == last {
        if pos < 0 {
          // ftruncate refuses a negative length
          return IOERROR;
        }
        files := files[dir := f[..pos]];
      } else {
        f := f[..pos] + f[last..last + 6] + f[pos + 6..];
        files := files[dir := f[..last]];
      }
      return OK;
    }
  }
}
