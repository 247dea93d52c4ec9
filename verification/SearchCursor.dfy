/** Searches without a cursor: each reply carries a number, and the next request sends it back.
    The server scans the directory from the start, counts qualifying entries in a fixed-width
    number, and answers the entry at which the count meets the number.

    File search (16 bits) counts from 0xffff and looks for the number plus one; directory scan
    (32 bits) counts from 0xfffffffe, looks for the number itself and answers it plus one.  Both
    are one probe over the flags that say which entries qualify. */
module SearchCursor {
  import opened Bytes
  import opened MatchName

  // ----- the probe -----------------------------------------------------------------------

  function Count(q: seq<bool>): (n: nat)
    ensures n <= |q|
  {
    if q == [] then 0 else Count(q[..|q| - 1]) + if q[|q| - 1] then 1 else 0
  }

  /** The number after a in m numbers, which wrap around. */
  function Succ(a: nat, m: nat): (r: nat)
    requires a < m
    ensures r < m
  {
    if a + 1 == m then 0 else a + 1
  }

  /** First entry from p on at which the running number equals dest. */
  function ProbeFrom(q: seq<bool>, p: nat, number: nat, dest: nat, m: nat): Option<nat>
    requires p <= |q| && number < m
    decreases |q| - p
  {
    if p == |q| then None
    else
      var next := if q[p] then Succ(number, m) else number;
      if next == dest then Some(p) else ProbeFrom(q, p + 1, next, dest, m)
  }

  /** The entry a search answers when it is given a number below m. */
  function Probe(q: seq<bool>, given: nat, m: nat): Option<nat>
    requires given < m
  {
    ProbeFrom(q, 0, m - 1, Succ(given, m), m)
  }

  /** Position of the qualifying entry that has k qualifying entries before it. */
  function Nth(q: seq<bool>, k: nat): (p: nat)
    requires k < Count(q)
    ensures p < |q| && q[p] && Count(q[..p]) == k
  {
    var last := |q| - 1;
    if q[last] && Count(q[..last]) == k then last
    else
      var p := Nth(q[..last], k);
      assert q[..last][..p] == q[..p];
      p
  }

  /** The number a client sends for entry k: what the search for entry k - 1 returned. */
  function Given(k: nat, m: nat): (r: nat)
    requires m > 0
    ensures r < m
  {
    if k == 0 then m - 1 else Succ(Given(k - 1, m), m)
  }

  lemma {:induction false} GivenIs(k: nat, m: nat)
    requires k <= m && m > 0
    ensures Given(k, m) == if k == 0 then m - 1 else k - 1
  {
    if k > 0 { GivenIs(k - 1, m); }
  }

  lemma CountStep(q: seq<bool>, p: nat)
    requires p < |q|
    ensures Count(q[..p + 1]) == Count(q[..p]) + if q[p] then 1 else 0
  {
    assert q[..p + 1][..p] == q[..p];
  }

  /** The running number after the first p entries. */
  function Running(q: seq<bool>, p: nat, m: nat): (r: nat)
    requires p <= |q| && m > 0
    ensures r < m
  {
    if p == 0 then m - 1
    else if q[p - 1] then Succ(Running(q, p - 1, m), m) else Running(q, p - 1, m)
  }

  lemma RunningStep(q: seq<bool>, p: nat, m: nat)
    requires p < |q| && m > 0
    ensures Running(q, p + 1, m) == if q[p] then Succ(Running(q, p, m), m) else Running(q, p, m)
  {
  }

  /** The probe answers the first entry after which the running number is right. */
  lemma {:induction false} ProbeIsFirst(q: seq<bool>, p: nat, dest: nat, m: nat)
    requires p <= |q| && m > 0
    ensures match ProbeFrom(q, p, Running(q, p, m), dest, m)
      case None => forall k {:trigger Running(q, k, m)} :: p < k <= |q| ==> Running(q, k, m) != dest
      case Some(i) => p <= i < |q| && Running(q, i + 1, m) == dest
                      && forall k {:trigger Running(q, k, m)} :: p < k <= i ==> Running(q, k, m) != dest
    decreases |q| - p
  {
    hide Running;
    if p < |q| {
      RunningStep(q, p, m);
      ProbeIsFirst(q, p + 1, dest, m);
    }
  }

  lemma {:induction false} CountMonotone(q: seq<bool>, i: nat, j: nat)
    requires i <= j <= |q|
    ensures Count(q[..i]) <= Count(q[..j])
  {
    if i < j {
      CountMonotone(q, i, j - 1);
      CountStep(q, j - 1);
    }
  }

  /** As long as the numbers have not come round, they count the qualifying entries. */
  lemma {:induction false} SmallRunning(q: seq<bool>, p: nat, m: nat)
    requires p <= |q| && m > 0 && Count(q[..p]) <= m
    ensures Running(q, p, m) == if Count(q[..p]) == 0 then m - 1 else Count(q[..p]) - 1
  {
    if p > 0 {
      CountStep(q, p - 1);
      SmallRunning(q, p - 1, m);
    }
  }

  // ----- enumeration -----------------------------------------------------------------------

  /** Sending back each number answers every qualifying entry once, in directory order, and then
      nothing. */
  ghost predicate Enumerates(q: seq<bool>, m: nat)
    requires m > 0
  {
    && (forall k :: 0 <= k < Count(q) ==> Probe(q, Given(k, m), m) == Some(Nth(q, k)))
    && Probe(q, Given(Count(q), m), m) == None
  }

  lemma GivenNext(k: nat, m: nat)
    requires m > 0 && k <= m - 1
    ensures Succ(Given(k, m), m) == k
  {
  }

  lemma StartsRight(q: seq<bool>, m: nat)
    requires m > 0
    ensures Running(q, 0, m) == m - 1
  {
  }

  lemma ProbeSome(q: seq<bool>, given: nat, dest: nat, m: nat, i: nat)
    requires m > 0 && i < |q| && given < m && Succ(given, m) == dest
    requires Running(q, i + 1, m) == dest && forall j :: 0 < j <= i ==> Running(q, j, m) != dest
    ensures Probe(q, given, m) == Some(i)
  {
    hide Running, ProbeFrom;
    StartsRight(q, m);
    ProbeIsFirst(q, 0, dest, m);
  }

  lemma ProbeNone(q: seq<bool>, given: nat, dest: nat, m: nat)
    requires given < m && Succ(given, m) == dest
    requires forall j :: 0 < j <= |q| ==> Running(q, j, m) != dest
    ensures Probe(q, given, m) == None
  {
    hide Running, ProbeFrom;
    StartsRight(q, m);
    ProbeIsFirst(q, 0, dest, m);
  }

  lemma ProbeHits(q: seq<bool>, k: nat, m: nat)
    requires k < Count(q) && m > 0 && k < m - 1
    ensures Probe(q, Given(k, m), m) == Some(Nth(q, k))
  {
    hide Running, Nth, Count, Probe, Given;
    var i := Nth(q, k);
    GivenNext(k, m);
    CountStep(q, i);
    SmallRunning(q, i + 1, m);
    forall j | 0 < j <= i ensures Running(q, j, m) != k {
      CountMonotone(q, j, i);
      SmallRunning(q, j, m);
    }
    ProbeSome(q, Given(k, m), k, m, i);
  }

  lemma ProbeMisses(q: seq<bool>, m: nat)
    requires m > 0 && Count(q) < m - 1
    ensures Probe(q, Given(Count(q), m), m) == None
  {
    hide Running, Count, Probe, Given;
    var n := Count(q);
    GivenNext(n, m);
    assert q[..|q|] == q;
    forall j | 0 < j <= |q| ensures Running(q, j, m) != n {
      CountMonotone(q, j, |q|);
      SmallRunning(q, j, m);
    }
    ProbeNone(q, Given(n, m), n, m);
  }

  /** The number m - 2 makes the search look for m - 1, which it starts from: a first entry that
      does not qualify is answered at once. */
  lemma ProbeForStart(q: seq<bool>, m: nat)
    requires m >= 2 && q != []
    ensures !q[0] ==> Probe(q, m - 2, m) == Some(0)
    ensures q[0] && Count(q) < m ==> Probe(q, m - 2, m) == None
  {
    StartsRight(q, m);
    RunningStep(q, 0, m);
    if q[0] && Count(q) < m {
      assert q[..|q|] == q;
      CountStep(q, 0);
      assert q[..0] == [];
      forall j | 0 < j <= |q| ensures Running(q, j, m) != m - 1 {
        CountMonotone(q, 1, j);
        CountMonotone(q, j, |q|);
        SmallRunning(q, j, m);
      }
      ProbeNone(q, m - 2, m - 1, m);
    }
  }

  lemma LastNumber(q: seq<bool>, m: nat)
    requires m >= 2 && Count(q) == m - 1
    ensures q != []
    ensures Enumerates(q, m) <==> q[0]
  {
    var n := Count(q);
    GivenIs(m - 1, m);
    ProbeForStart(q, m);
    if q[0] {
      forall k | 0 <= k < n ensures Probe(q, Given(k, m), m) == Some(Nth(q, k)) { ProbeHits(q, k, m); }
    }
  }

  /** With m or more qualifying entries the numbers come round: entry 0 is answered again. */
  lemma Wrapped(q: seq<bool>, m: nat)
    requires m >= 2 && Count(q) >= m
    ensures Probe(q, Given(m, m), m) == Some(Nth(q, 0))
    ensures !Enumerates(q, m)
  {
    GivenIs(m, m);
    ProbeHits(q, 0, m);
  }

  /** A search is exhaustive and without repeats exactly when fewer than m - 1 entries qualify, or
      exactly m - 1 do and the very first entry is one of them. */
  lemma EnumeratesExactlyWhen(q: seq<bool>, m: nat)
    requires m >= 2
    ensures Enumerates(q, m) <==> Count(q) < m - 1 || (Count(q) == m - 1 && q[0])
  {
    var n := Count(q);
    if n < m - 1 {
      forall k | 0 <= k < n ensures Probe(q, Given(k, m), m) == Some(Nth(q, k)) { ProbeHits(q, k, m); }
      ProbeMisses(q, m);
    } else if n == m - 1 {
      LastNumber(q, m);
    } else {
      Wrapped(q, m);
    }
  }

  /** Nth visits the qualifying entries in directory order and leaves none out. */
  lemma NthInOrder(q: seq<bool>, k: nat, l: nat)
    requires k < l < Count(q)
    ensures Nth(q, k) < Nth(q, l)
  {
  }

  lemma NthReaches(q: seq<bool>, p: nat)
    requires p < |q| && q[p]
    ensures Count(q[..p]) < Count(q) && Nth(q, Count(q[..p])) == p
  {
    var k := Count(q[..p]);
    CountStep(q, p);
    CountMonotone(q, p + 1, |q|);
    assert q[..|q|] == q;
    var i := Nth(q, k);
    CountStep(q, i);
    if i < p { CountMonotone(q, i + 1, p); }
    if p < i { CountMonotone(q, p + 1, i); }
  }

  /** Except for the number two below the modulus, an entry that is answered qualifies. */
  lemma AnswersQualify(q: seq<bool>, given: nat, m: nat)
    requires m >= 2 && given < m && given + 2 != m
    ensures match Probe(q, given, m)
      case Some(p) => p < |q| && q[p]
      case None => true
  {
    hide Running, ProbeFrom;
    StartsRight(q, m);
    var dest := Succ(given, m);
    ProbeIsFirst(q, 0, dest, m);
    var answer := ProbeFrom(q, 0, m - 1, dest, m);
    assert Running(q, 0, m) != dest;
    if answer.Some? {
      var p := answer.value;
      RunningStep(q, p, m);
      assert Running(q, p, m) != dest;
    }
  }

  /** The entries that a full enumeration answers are those that qualify. */
  lemma EnumerationAnswers(q: seq<bool>, m: nat, p: nat)
    requires m >= 2 && p < |q| && Enumerates(q, m)
    ensures q[p] <==> exists k :: 0 <= k < Count(q) && Probe(q, Given(k, m), m) == Some(p)
  {
    hide Probe;
    if q[p] {
      NthReaches(q, p);
      var k := Count(q[..p]);
      assert Probe(q, Given(k, m), m) == Some(p);
    }
  }

  // ----- directories -------------------------------------------------------------------------

  /** A directory entry, and whether the client may scan it if it is a directory. */
  datatype Entry = Entry(name: Name, isDir: bool, allowed: bool)

  type Directory = seq<Entry>

  /** "$TRUSTEE.SYS" */
  const TRUSTFILE: Name := [0x24, 0x54, 0x52, 0x55, 0x53, 0x54, 0x45, 0x45, 0x2e, 0x53, 0x59, 0x53]

  const SELF: Name := [DOT]
  const PARENT: Name := [DOT, DOT]

  predicate Fits(e: Entry, pattern: Name) {
    Matches(e.name, pattern) || e.name == pattern
  }

  /** Bit 0x10 of a search attribute asks for directories instead of files. */
  predicate WantsDirs(attr: byte) {
    attr / 0x10 % 2 == 1
  }

  predicate FoundByContinue(e: Entry, pattern: Name, attr: byte, scanRight: bool) {
    Fits(e, pattern) && e.name != TRUSTFILE &&
    if e.isDir then WantsDirs(attr) && e.name != SELF && e.name != PARENT && e.allowed
    else !WantsDirs(attr) && scanRight
  }

  predicate FoundByScan(e: Entry, pattern: Name, attr: byte) {
    Fits(e, pattern) && e.name != TRUSTFILE &&
    if e.isDir then WantsDirs(attr) && e.name != SELF && e.name != PARENT else !WantsDirs(attr)
  }

  function ContinueFlags(dir: Directory, pattern: Name, attr: byte, scanRight: bool): seq<bool> {
    seq(|dir|, i requires 0 <= i < |dir| => FoundByContinue(dir[i], pattern, attr, scanRight))
  }

  function SearchFlags(dir: Directory, pattern: Name): seq<bool> {
    seq(|dir|, i requires 0 <= i < |dir| => Fits(dir[i], pattern))
  }

  function ScanFlags(dir: Directory, pattern: Name, attr: byte): seq<bool> {
    seq(|dir|, i requires 0 <= i < |dir| => FoundByScan(dir[i], pattern, attr))
  }

  const WORD: nat := 0x1_0000
  const LONG: nat := 0x1_0000_0000

  // ----- what the searches are for ---------------------------------------------------------------

  /** The entries that continuing a file search is for: directories if bit 4 of the attribute is
      set, and not the two links, or else files. */
  predicate MayContinue(e: Entry, pattern: Name, attr: byte, scanRight: bool) {
    && (Matches(e.name, pattern) || e.name == pattern)
    && e.name != [0x24, 0x54, 0x52, 0x55, 0x53, 0x54, 0x45, 0x45, 0x2e, 0x53, 0x59, 0x53]
    && (e.isDir <==> attr % 32 >= 16)
    && (e.isDir ==> e.name != [0x2e] && e.name != [0x2e, 0x2e] && e.allowed)
    && (!e.isDir ==> scanRight)
  }

  /** The entries that a directory scan is for. */
  predicate MayScan(e: Entry, pattern: Name, attr: byte) {
    && (Matches(e.name, pattern) || e.name == pattern)
    && e.name != [0x24, 0x54, 0x52, 0x55, 0x53, 0x54, 0x45, 0x45, 0x2e, 0x53, 0x59, 0x53]
    && (e.isDir <==> attr % 32 >= 16)
    && (e.isDir ==> e.name != [0x2e] && e.name != [0x2e, 0x2e])
  }

  lemma Wanted(attr: byte)
    ensures WantsDirs(attr) <==> attr % 32 >= 16
  {
  }

  lemma FlagsMean(dir: Directory, pattern: Name, attr: byte, scanRight: bool, p: nat)
    requires p < |dir|
    ensures ContinueFlags(dir, pattern, attr, scanRight)[p] <==> MayContinue(dir[p], pattern, attr, scanRight)
    ensures ScanFlags(dir, pattern, attr)[p] <==> MayScan(dir[p], pattern, attr)
    ensures SearchFlags(dir, pattern)[p] <==> Matches(dir[p].name, pattern) || dir[p].name == pattern
  {
    hide WantsDirs, Matches;
    Wanted(attr);
  }

  lemma LengthOfFlags(dir: Directory, pattern: Name, attr: byte, scanRight: bool)
    ensures |ContinueFlags(dir, pattern, attr, scanRight)| == |SearchFlags(dir, pattern)| == |dir|
    ensures |ScanFlags(dir, pattern, attr)| == |dir|
  {
  }

  /** A file search that is enumerated to its end answers exactly the entries it is for. */
  lemma ContinueAnswers(dir: Directory, pattern: Name, attr: byte, scanRight: bool, p: nat)
    requires p < |dir| && Enumerates(ContinueFlags(dir, pattern, attr, scanRight), 0x1_0000)
    ensures var q := ContinueFlags(dir, pattern, attr, scanRight);
      MayContinue(dir[p], pattern, attr, scanRight) <==>
      exists k :: 0 <= k < Count(q) && Probe(q, Given(k, 0x1_0000), 0x1_0000) == Some(p)
  {
    hide Enumerates, Probe, Count, Given, MayContinue, ContinueFlags;
    FlagsMean(dir, pattern, attr, scanRight, p);
    LengthOfFlags(dir, pattern, attr, scanRight);
    EnumerationAnswers(ContinueFlags(dir, pattern, attr, scanRight), 0x1_0000, p);
  }

  /** The same for a search by name and for a directory scan. */
  lemma SearchAnswers(dir: Directory, pattern: Name, p: nat)
    requires p < |dir| && Enumerates(SearchFlags(dir, pattern), 0x1_0000)
    ensures var q := SearchFlags(dir, pattern);
      Matches(dir[p].name, pattern) || dir[p].name == pattern <==>
      exists k :: 0 <= k < Count(q) && Probe(q, Given(k, 0x1_0000), 0x1_0000) == Some(p)
  {
    hide Enumerates, Probe, Count, Given, Matches, SearchFlags;
    FlagsMean(dir, pattern, 0, false, p);
    LengthOfFlags(dir, pattern, 0, false);
    EnumerationAnswers(SearchFlags(dir, pattern), 0x1_0000, p);
  }

  lemma ScanAnswers(dir: Directory, pattern: Name, attr: byte, p: nat)
    requires p < |dir| && Enumerates(ScanFlags(dir, pattern, attr), 0x1_0000_0000)
    ensures var q := ScanFlags(dir, pattern, attr);
      MayScan(dir[p], pattern, attr) <==>
      exists k :: 0 <= k < Count(q) && Probe(q, Given(k, 0x1_0000_0000), 0x1_0000_0000) == Some(p)
  {
    hide Enumerates, Probe, Count, Given, MayScan, ScanFlags;
    FlagsMean(dir, pattern, attr, false, p);
    LengthOfFlags(dir, pattern, attr, false);
    EnumerationAnswers(ScanFlags(dir, pattern, attr), 0x1_0000_0000, p);
  }

  lemma ContinueSound(dir: Directory, given: uint16, pattern: Name, attr: byte, scanRight: bool)
    requires given != 0xfffe
    ensures match Probe(ContinueFlags(dir, pattern, attr, scanRight), given, WORD)
      case Some(p) => p < |dir| && MayContinue(dir[p], pattern, attr, scanRight)
      case None => true
  {
    hide Probe, MayContinue, ContinueFlags;
    AnswersQualify(ContinueFlags(dir, pattern, attr, scanRight), given, WORD);
    LengthOfFlags(dir, pattern, attr, scanRight);
    var answer := Probe(ContinueFlags(dir, pattern, attr, scanRight), given, WORD);
    if answer.Some? { FlagsMean(dir, pattern, attr, scanRight, answer.value); }
  }

  lemma SearchSound(dir: Directory, given: uint16, pattern: Name)
    requires given != 0xfffe
    ensures match Probe(SearchFlags(dir, pattern), given, WORD)
      case Some(p) => p < |dir| && (Matches(dir[p].name, pattern) || dir[p].name == pattern)
      case None => true
  {
    hide Probe, Matches, SearchFlags;
    AnswersQualify(SearchFlags(dir, pattern), given, WORD);
    LengthOfFlags(dir, pattern, 0, false);
    var answer := Probe(SearchFlags(dir, pattern), given, WORD);
    if answer.Some? { FlagsMean(dir, pattern, 0, false, answer.value); }
  }

  lemma ScanSound(dir: Directory, given: uint32, pattern: Name, attr: byte)
    requires given != 0xffff_fffe
    ensures match Probe(ScanFlags(dir, pattern, attr), given, LONG)
      case Some(p) => p < |dir| && MayScan(dir[p], pattern, attr)
      case None => true
  {
    hide Probe, MayScan, ScanFlags;
    AnswersQualify(ScanFlags(dir, pattern, attr), given, LONG);
    LengthOfFlags(dir, pattern, attr, false);
    var answer := Probe(ScanFlags(dir, pattern, attr), given, LONG);
    if answer.Some? { FlagsMean(dir, pattern, attr, false, answer.value); }
  }

  // ----- the loops ---------------------------------------------------------------------------------

  /** match_fn, or the very pattern */
  method EntryFits(e: Entry, pattern: Name) returns (r: bool)
    ensures r == Fits(e, pattern)
  {
    r := MatchFn(e.name, pattern);
    r := r || e.name == pattern;
  }

  /** File search continue. */
  method FsContinue(dir: Directory, given: uint16, pattern: Name, attr: byte, scanRight: bool)
    returns (dent: Option<nat>, number: uint16)
    ensures dent == Probe(ContinueFlags(dir, pattern, attr, scanRight), given, WORD)
    ensures number == (given + 1) % 0x1_0000
    ensures dent.Some? && given != 0xfffe ==>
      dent.value < |dir| && MayContinue(dir[dent.value], pattern, attr, scanRight)
  {
    if given != 0xfffe { ContinueSound(dir, given, pattern, attr, scanRight); }
    hide Fits, MayContinue;
    ghost var q := ContinueFlags(dir, pattern, attr, scanRight);
    number := (given + 1) % WORD;
    var seqno: uint16 := 0xffff;
    var p := 0;
    while p < |dir|
      invariant p <= |dir|
      invariant ProbeFrom(q, p, seqno, number, WORD) == Probe(q, given, WORD)
    {
      var e := dir[p];
      var fits := EntryFits(e, pattern);
      if fits && e.name != TRUSTFILE {
        if e.isDir {
          if WantsDirs(attr) {
            if e.name != SELF && e.name != PARENT {
              if e.allowed {
                seqno := (seqno + 1) % WORD;
              }
            }
          }
        } else {
          if !WantsDirs(attr) && scanRight {
            seqno := (seqno + 1) % WORD;
          }
        }
      }
      if seqno == number {
        return Some(p), number;
      }
      p := p + 1;
    }
    return None, number;
  }

  /** Search for a file. */
  method FileSearch(dir: Directory, given: uint16, pattern: Name) returns (dent: Option<nat>, number: uint16)
    ensures dent == Probe(SearchFlags(dir, pattern), given, WORD)
    ensures number == (given + 1) % 0x1_0000
    ensures dent.Some? && given != 0xfffe ==>
      dent.value < |dir| && (Matches(dir[dent.value].name, pattern) || dir[dent.value].name == pattern)
  {
    if given != 0xfffe { SearchSound(dir, given, pattern); }
    hide Fits, Matches;
    ghost var q := SearchFlags(dir, pattern);
    number := (given + 1) % WORD;
    var seqno: uint16 := 0xffff;
    var p := 0;
    while p < |dir|
      invariant p <= |dir|
      invariant ProbeFrom(q, p, seqno, number, WORD) == Probe(q, given, WORD)
    {
      var fits := EntryFits(dir[p], pattern);
      if fits {
        seqno := (seqno + 1) % WORD;
      }
      if seqno == number {
        return Some(p), number;
      }
      p := p + 1;
    }
    return None, number;
  }

  lemma SameNext(a: uint32, b: uint32)
    ensures Succ(a, LONG) == Succ(b, LONG) <==> a == b
  {
  }

  /** Scan a directory. */
  method ScanDir(dir: Directory, seqno: uint32, pattern: Name, attr: byte)
    returns (dent: Option<nat>, number: uint32)
    ensures dent == Probe(ScanFlags(dir, pattern, attr), seqno, LONG)
    ensures number == (seqno + 1) % 0x1_0000_0000
    ensures dent.Some? && seqno != 0xffff_fffe ==>
      dent.value < |dir| && MayScan(dir[dent.value], pattern, attr)
  {
    if seqno != 0xffff_fffe { ScanSound(dir, seqno, pattern, attr); }
    hide Fits, MayScan;
    ghost var q := ScanFlags(dir, pattern, attr);
    number := (seqno + 1) % LONG;
    var curseq: uint32 := 0xffff_fffe;
    var p := 0;
    while p < |dir|
      invariant p <= |dir|
      invariant ProbeFrom(q, p, Succ(curseq, LONG), number, LONG) == Probe(q, seqno, LONG)
    {
      var e := dir[p];
      ghost var before := curseq;
      var fits := EntryFits(e, pattern);
      if fits && e.name != TRUSTFILE {
        if e.isDir {
          if WantsDirs(attr) {
            if e.name != SELF && e.name != PARENT {
              curseq := (curseq + 1) % LONG;
            }
          }
        } else {
          if !WantsDirs(attr) {
            curseq := (curseq + 1) % LONG;
          }
        }
      }
      assert curseq == if q[p] then (before + 1) % LONG else before;
      SameNext(seqno, curseq);
      if seqno == curseq {
        return Some(p), number;
      }
      p := p + 1;
    }
    return None, number;
  }

  /** When each kind of search is exhaustive, without repeats and in directory order. */
  lemma SearchesEnumerate(dir: Directory, pattern: Name, attr: byte, scanRight: bool)
    ensures var q := ContinueFlags(dir, pattern, attr, scanRight);
      Enumerates(q, WORD) <==> Count(q) < 0xffff || (Count(q) == 0xffff && q[0])
    ensures var q := SearchFlags(dir, pattern);
      Enumerates(q, WORD) <==> Count(q) < 0xffff || (Count(q) == 0xffff && q[0])
    ensures var q := ScanFlags(dir, pattern, attr);
      Enumerates(q, LONG) <==> Count(q) < 0xffff_ffff || (Count(q) == 0xffff_ffff && q[0])
  {
    EnumeratesExactlyWhen(ContinueFlags(dir, pattern, attr, scanRight), WORD);
    EnumeratesExactlyWhen(SearchFlags(dir, pattern), WORD);
    EnumeratesExactlyWhen(ScanFlags(dir, pattern, attr), LONG);
  }
}
