/** File name patterns of misc.c: match_fn with its two pointers, and what patterns mean. */
module MatchName {
  import opened Bytes

  /** The bytes of a C string. */
  type Name = s: seq<byte> | 0 !in s

  const QUERY: byte := 0x3f
  const STAR: byte := 0x2a
  const DOT: byte := 0x2e
  const QUERY8: byte := 0xbf
  const STAR8: byte := 0xaa
  const DOT8: byte := 0xae
  const SKIP: byte := 0xff

  /** tolower in the C locale. */
  function Lower(b: byte): byte {
    if 0x41 <= b <= 0x5a then b + 0x20 else b
  }

  function Folded(s: seq<byte>): seq<byte> {
    seq(|s|, i requires 0 <= i < |s| => Lower(s[i]))
  }

  /** s from its first dot on. */
  function ToDot(s: seq<byte>): (r: seq<byte>)
    ensures |r| <= |s|
  {
    if s == [] || s[0] == DOT then s else ToDot(s[1..])
  }

  // ----- the meaning of a pattern ----------------------------------------------------------

  predicate Matches(s: seq<byte>, d: seq<byte>)
    decreases |d|
  {
    if d == [] then s == []
    else if d[0] == QUERY || d[0] == QUERY8 then
      Matches(if s != [] && s[0] != DOT then s[1..] else s, d[1..])
    else if d[0] == STAR || d[0] == STAR8 then
      (d == [STAR]) || Matches(ToDot(s), d[1..])
    else if d[0] == DOT || d[0] == DOT8 then
      if s == [] then Matches(s, d[1..]) else s[0] == DOT && Matches(s[1..], d[1..])
    else if d[0] == SKIP then Matches(s, d[1..])
    else s != [] && Lower(s[0]) == Lower(d[0]) && Matches(s[1..], d[1..])
  }

  lemma Tail(s: seq<byte>, t: seq<byte>)
    requires Folded(s) == Folded(t)
    ensures |s| == |t|
    ensures s != [] ==> Lower(s[0]) == Lower(t[0]) && Folded(s[1..]) == Folded(t[1..])
    ensures s != [] ==> (s[0] == DOT <==> t[0] == DOT)
  {
    assert |Folded(s)| == |s| && |Folded(t)| == |t|;
    forall i | 0 <= i < |s| ensures Lower(s[i]) == Lower(t[i]) {
      assert Folded(s)[i] == Folded(t)[i];
    }
  }

  lemma {:induction false} FoldedToDot(s: seq<byte>, t: seq<byte>)
    requires Folded(s) == Folded(t)
    ensures Folded(ToDot(s)) == Folded(ToDot(t))
  {
    if s != [] {
      Tail(s, t);
      FoldedToDot(s[1..], t[1..]);
    }
  }

  lemma PatternByte(b: byte, c: byte)
    requires Lower(b) == Lower(c)
    ensures var special := {QUERY, QUERY8, STAR, STAR8, DOT, DOT8, SKIP};
      b in special || c in special ==> b == c
  {
  }

  lemma {:induction false} FoldedMatch(s: seq<byte>, t: seq<byte>, d: seq<byte>, e: seq<byte>)
    requires Folded(s) == Folded(t) && Folded(d) == Folded(e)
    ensures Matches(s, d) == Matches(t, e)
    decreases |d|
  {
    Tail(s, t);
    Tail(d, e);
    if d != [] {
      FoldedToDot(s, t);
      FoldedMatch(s, t, d[1..], e[1..]);
      FoldedMatch(ToDot(s), ToDot(t), d[1..], e[1..]);
      if s != [] { FoldedMatch(s[1..], t[1..], d[1..], e[1..]); }
      PatternByte(d[0], e[0]);
      hide Folded, Lower, ToDot;
    }
  }

  /** Equal, or an upper-case letter of ASCII and its lower-case partner. */
  predicate AlikeBytes(a: byte, b: byte) {
    a == b || (0x41 <= a <= 0x5a && b == a + 0x20) || (0x41 <= b <= 0x5a && a == b + 0x20)
  }

  predicate Alike(s: seq<byte>, t: seq<byte>) {
    |s| == |t| && forall i :: 0 <= i < |s| ==> AlikeBytes(s[i], t[i])
  }

  lemma FoldedMeans(s: seq<byte>, t: seq<byte>)
    ensures Folded(s) == Folded(t) <==> Alike(s, t)
  {
    if Folded(s) == Folded(t) {
      assert |Folded(s)| == |s| && |Folded(t)| == |t|;
      forall i | 0 <= i < |s| ensures AlikeBytes(s[i], t[i]) { assert Folded(s)[i] == Folded(t)[i]; }
    }
  }

  /** Letter case does not matter, in the name or in the pattern. */
  lemma IgnoresCase(s: seq<byte>, t: seq<byte>, d: seq<byte>, e: seq<byte>)
    requires Alike(s, t) && Alike(d, e)
    ensures Matches(s, d) == Matches(t, e)
  {
    hide Matches, Alike, Folded;
    FoldedMeans(s, t);
    FoldedMeans(d, e);
    FoldedMatch(s, t, d, e);
  }

  predicate Plain(d: seq<byte>) {
    forall i :: 0 <= i < |d| ==> d[i] !in {QUERY, QUERY8, STAR, STAR8, DOT8, SKIP}
  }

  lemma PlainStep(s: seq<byte>, d: seq<byte>)
    requires s != [] && d != []
    ensures |s| <= |d| ==>
      (Folded(s) == Folded(d[..|s|]) <==>
       Lower(s[0]) == Lower(d[0]) && Folded(s[1..]) == Folded(d[1..][..|s| - 1]))
    ensures (forall i :: |s| <= i < |d| ==> d[i] == DOT) <==>
      forall i :: |s| - 1 <= i < |d| - 1 ==> d[1..][i] == DOT
    ensures Lower(s[0]) == Lower(d[0]) && d[0] == DOT ==> s[0] == DOT
  {
    if |s| <= |d| {
      var p := d[..|s|];
      assert p[1..] == d[1..][..|s| - 1];
      if Folded(s) == Folded(p) {
        Tail(s, p);
      }
      if Lower(s[0]) == Lower(d[0]) && Folded(s[1..]) == Folded(p[1..]) {
        forall i | 0 <= i < |s| ensures Lower(s[i]) == Lower(p[i]) {
          if i > 0 { assert Folded(s[1..])[i - 1] == Folded(p[1..])[i - 1]; }
        }
      }
    }
    if forall i :: |s| - 1 <= i < |d| - 1 ==> d[1..][i] == DOT {
      forall i | |s| <= i < |d| ensures d[i] == DOT { assert d[1..][i - 1] == DOT; }
    }
  }

  lemma {:induction false} PlainFolded(s: seq<byte>, d: seq<byte>)
    requires Plain(d)
    ensures Matches(s, d) <==>
      |s| <= |d| && Folded(s) == Folded(d[..|s|]) && forall i :: |s| <= i < |d| ==> d[i] == DOT
  {
    if d != [] {
      if s == [] {
        PlainFolded(s, d[1..]);
        assert forall i :: 0 <= i < |d[1..]| ==> d[1..][i] == d[i + 1];
        assert (forall i :: 0 <= i < |d| ==> d[i] == DOT) <==>
               d[0] == DOT && forall i :: 0 <= i < |d[1..]| ==> d[1..][i] == DOT;
      } else {
        PlainFolded(s[1..], d[1..]);
        PlainStep(s, d);
      }
    }
  }

  /** A pattern without wildcards or escapes matches exactly the name it spells, in any letter case,
      up to trailing dots of the pattern. */
  lemma PlainPattern(s: seq<byte>, d: seq<byte>)
    requires Plain(d)
    ensures Matches(s, d) <==>
      |s| <= |d| && Alike(s, d[..|s|]) && forall i :: |s| <= i < |d| ==> d[i] == 0x2e
  {
    hide Matches, Alike, Folded, Plain;
    PlainFolded(s, d);
    if |s| <= |d| { FoldedMeans(s, d[..|s|]); }
  }

  /** A pattern byte with the high bit set means the same as its partner. */
  predicate Twins(b: byte, c: byte) {
    b == c || (b == 0xbf && c == 0x3f) || (b == 0xae && c == 0x2e) || (b == 0xaa && c == 0x2a)
  }

  /** Question marks, dots and stars may have the high bit set, except for a star at the end. */
  lemma {:induction false} HighBitTwins(s: seq<byte>, d: seq<byte>, e: seq<byte>)
    requires |d| == |e| && forall i :: 0 <= i < |d| ==> Twins(d[i], e[i])
    requires d != [] ==> d[|d| - 1] != 0xaa
    ensures Matches(s, d) == Matches(s, e)
    decreases |d|
  {
    if d != [] {
      HighBitTwins(s, d[1..], e[1..]);
      HighBitTwins(ToDot(s), d[1..], e[1..]);
      if s != [] { HighBitTwins(s[1..], d[1..], e[1..]); }
      hide ToDot;
      assert |d| == 1 ==> d == [d[0]] && e == [e[0]];
      assert |d| > 1 ==> d != [STAR] && e != [STAR];
    }
  }

  /** A star with the high bit set at the end is a star that a 0xff follows. */
  lemma {:induction false} HighStarAtEnd(s: seq<byte>, a: seq<byte>)
    ensures Matches(s, a + [0xaa]) == Matches(s, a + [0x2a, 0xff])
    decreases |a|
  {
    var d, e := a + [0xaa], a + [0x2a, 0xff];
    if a == [] {
      assert d == [0xaa] && e == [0x2a, 0xff] && d[1..] == [] && e[1..] == [0xff] && e[1..][1..] == [];
      assert Matches(ToDot(s), [0xff]) == Matches(ToDot(s), []);
    } else {
      assert d[1..] == a[1..] + [0xaa] && e[1..] == a[1..] + [0x2a, 0xff] && d[0] == e[0] == a[0];
      HighStarAtEnd(s, a[1..]);
      HighStarAtEnd(ToDot(s), a[1..]);
      if s != [] { HighStarAtEnd(s[1..], a[1..]); }
      hide ToDot, Lower;
      assert |d| > 1 && |e| > 1;
    }
  }

  lemma {:induction false} ToDotStarts(s: seq<byte>)
    ensures ToDot(s) == [] || ToDot(s)[0] == DOT
  {
    if s != [] { ToDotStarts(s[1..]); }
  }

  lemma StarMatchesAll(s: seq<byte>)
    ensures Matches(s, [0x2a])
    ensures Matches(s, [0x2a, 0x2e, 0x2a])
  {
    var t := ToDot(s);
    ToDotStarts(s);
    assert [STAR, DOT, STAR][1..] == [DOT, STAR] && [DOT, STAR][1..] == [STAR];
    assert Matches(t, [DOT, STAR]);
  }

  function Queries(n: nat): seq<byte> {
    seq(n, _ => 0x3f)
  }

  /** s without its first bytes that are not dots, at most n of them. */
  function Past(s: seq<byte>, n: nat): seq<byte> {
    if n == 0 || s == [] || s[0] == DOT then s else Past(s[1..], n - 1)
  }

  lemma {:induction false} QueriesSkip(s: seq<byte>, n: nat, d: seq<byte>)
    ensures Matches(s, Queries(n) + d) == Matches(Past(s, n), d)
  {
    if n == 0 {
      assert Queries(0) + d == d;
    } else {
      var pattern := Queries(n) + d;
      assert pattern[1..] == Queries(n - 1) + d;
      QueriesSkip(if s != [] && s[0] != DOT then s[1..] else s, n - 1, d);
    }
  }

  /** The part of a name before its first dot. */
  function Base(s: seq<byte>): (r: seq<byte>)
    ensures r <= s && DOT !in r
  {
    if s == [] || s[0] == DOT then [] else [s[0]] + Base(s[1..])
  }

  lemma {:induction false} BaseAndRest(s: seq<byte>)
    ensures s == Base(s) + ToDot(s)
  {
    if s != [] && s[0] != DOT { BaseAndRest(s[1..]); }
  }

  lemma {:induction false} PastBase(s: seq<byte>, n: nat)
    ensures |Base(s)| <= n ==> Past(s, n) == ToDot(s)
    ensures |Base(s)| > n ==> Past(s, n) != [] && Past(s, n)[0] != DOT
  {
    if n > 0 && s != [] && s[0] != DOT { PastBase(s[1..], n - 1); }
  }

  lemma {:induction false} PastAll(s: seq<byte>, n: nat)
    ensures Past(s, n) == [] <==> DOT !in s && |s| <= n
  {
    if n > 0 && s != [] && s[0] != DOT { PastAll(s[1..], n - 1); }
  }

  /** n question marks, a dot and m question marks match exactly the names whose part before the
      first dot has at most n bytes and whose rest is nothing, or a dot and at most m bytes
      without another dot. */
  lemma QueriesDotQueries(s: seq<byte>, n: nat, m: nat)
    ensures Matches(s, Queries(n) + [0x2e] + Queries(m)) <==>
      && |Base(s)| <= n
      && var rest := s[|Base(s)|..];
      rest == [] || (rest[0] == DOT && DOT !in rest[1..] && |rest| - 1 <= m)
  {
    var tail := [DOT] + Queries(m);
    assert Queries(n) + [DOT] + Queries(m) == Queries(n) + tail;
    assert tail[1..] == Queries(m) == Queries(m) + [];
    QueriesSkip(s, n, tail);
    var p := Past(s, n);
    PastBase(s, n);
    BaseAndRest(s);
    ToDotStarts(s);
    assert s[|Base(s)|..] == ToDot(s);
    QueriesSkip(p, m, []);
    PastAll(p, m);
    if p != [] {
      QueriesSkip(p[1..], m, []);
      PastAll(p[1..], m);
    }
    hide Past, Base, ToDot;
  }

  lemma ExtensionIs(s: seq<byte>, d: seq<byte>)
    requires 0x2e !in d
    ensures |s| <= |d| && Alike(s, d[..|s|]) && (forall i :: |s| <= i < |d| ==> d[i] == 0x2e) <==> Alike(s, d)
  {
    if |s| == |d| { assert d[..|s|] == d; }
    if |s| < |d| { assert d[|s|] != 0x2e; }
  }

  /** "*." and a dotless extension match exactly the names with that extension, in any letter case,
      behind their first dot. */
  lemma StarDotExtension(s: seq<byte>, d: seq<byte>)
    requires Plain(d) && d != [] && 0x2e !in d
    ensures Matches(s, [0x2a, 0x2e] + d) <==>
      && |Base(s)| < |s|
      && Alike(s[|Base(s)| + 1..], d)
  {
    var rest := ToDot(s);
    BaseAndRest(s);
    ToDotStarts(s);
    var pattern := [0x2a, 0x2e] + d;
    assert pattern[1..] == [0x2e] + d && ([0x2e] + d)[1..] == d;
    assert Matches(s, pattern) == Matches(rest, [0x2e] + d);
    if rest == [] {
      PlainPattern([], d);
      assert d[0] != 0x2e;
    } else {
      assert s[|Base(s)|..] == rest && s[|Base(s)| + 1..] == rest[1..];
      PlainPattern(rest[1..], d);
      ExtensionIs(rest[1..], d);
    }
  }

  // ----- patterns that match nothing, and 0xff bytes ---------------------------------------------

  predicate IsStar(b: byte) {
    b == STAR || b == STAR8
  }

  /** Pattern bytes that leave the name where a star left it, at a dot or at its end. */
  predicate IsSoft(b: byte) {
    IsStar(b) || b == QUERY || b == QUERY8 || b == SKIP
  }

  predicate IsOrdinary(b: byte) {
    !IsSoft(b) && b != DOT && b != DOT8
  }

  /** The first byte that is not soft is an ordinary one. */
  ghost predicate OrdinaryNext(d: seq<byte>) {
    exists j :: 0 <= j < |d| && IsOrdinary(d[j]) && forall k :: 0 <= k < j ==> IsSoft(d[k])
  }

  /** Some star is followed, across stars, question marks and 0xff bytes only, by an ordinary
      byte. */
  ghost predicate Hopeless(d: seq<byte>) {
    exists i :: 0 <= i < |d| && IsStar(d[i]) && OrdinaryNext(d[i + 1..])
  }

  lemma OrdinaryNextStep(d: seq<byte>)
    ensures OrdinaryNext(d) <==> d != [] && (IsOrdinary(d[0]) || (IsSoft(d[0]) && OrdinaryNext(d[1..])))
  {
    if OrdinaryNext(d) && !IsOrdinary(d[0]) {
      var j :| 0 <= j < |d| && IsOrdinary(d[j]) && forall k :: 0 <= k < j ==> IsSoft(d[k]);
      assert d[1..][j - 1] == d[j];
    }
    if d != [] && IsSoft(d[0]) && OrdinaryNext(d[1..]) {
      var j :| 0 <= j < |d[1..]| && IsOrdinary(d[1..][j]) && forall k :: 0 <= k < j ==> IsSoft(d[1..][k]);
      assert d[j + 1] == d[1..][j] && forall k :: 0 < k <= j ==> d[k] == d[1..][k - 1];
    }
  }

  lemma HopelessStep(d: seq<byte>)
    ensures Hopeless(d) <==> d != [] && ((IsStar(d[0]) && OrdinaryNext(d[1..])) || Hopeless(d[1..]))
  {
    if Hopeless(d) {
      var i :| 0 <= i < |d| && IsStar(d[i]) && OrdinaryNext(d[i + 1..]);
      if i > 0 { assert d[1..][i - 1] == d[i] && d[1..][i..] == d[i + 1..]; }
    }
    if d != [] && Hopeless(d[1..]) {
      var i :| 0 <= i < |d[1..]| && IsStar(d[1..][i]) && OrdinaryNext(d[1..][i + 1..]);
      assert d[i + 1] == d[1..][i] && d[i + 2..] == d[1..][i + 1..];
    }
  }

  /** A name that is at a dot, or at its end, does not get past such a pattern. */
  lemma {:induction false} StuckAtDot(s: seq<byte>, d: seq<byte>)
    requires (s == [] || s[0] == DOT) && OrdinaryNext(d)
    ensures !Matches(s, d)
  {
    OrdinaryNextStep(d);
    if IsSoft(d[0]) {
      assert ToDot(s) == s;
      StuckAtDot(s, d[1..]);
      assert d != [STAR];
    }
  }

  lemma {:induction false} HopelessMatchesNothing(s: seq<byte>, d: seq<byte>)
    requires Hopeless(d)
    ensures !Matches(s, d)
    decreases |d|
  {
    HopelessStep(d);
    if IsStar(d[0]) && OrdinaryNext(d[1..]) {
      ToDotStarts(s);
      StuckAtDot(ToDot(s), d[1..]);
    } else {
      HopelessMatchesNothing(s, d[1..]);
      HopelessMatchesNothing(ToDot(s), d[1..]);
      if s != [] { HopelessMatchesNothing(s[1..], d[1..]); }
      hide ToDot, Lower, Hopeless;
      assert d[1..] != [];
    }
  }

  /** A name that the pattern matches, if it is not hopeless; after a star it starts with a dot
      or is empty. */
  function Example(d: seq<byte>, afterStar: bool): seq<byte> {
    if d == [] then []
    else if IsStar(d[0]) then Example(d[1..], true)
    else if d[0] == DOT || d[0] == DOT8 then [DOT] + Example(d[1..], false)
    else if d[0] == SKIP || afterStar then Example(d[1..], afterStar)
    else if d[0] == QUERY || d[0] == QUERY8 then [0x78] + Example(d[1..], false)
    else [d[0]] + Example(d[1..], false)
  }

  lemma {:induction false} ExampleMatches(d: seq<byte>, afterStar: bool)
    requires !Hopeless(d) && (afterStar ==> !OrdinaryNext(d))
    ensures Matches(Example(d, afterStar), d)
    ensures afterStar ==> Example(d, true) == [] || Example(d, true)[0] == DOT
    ensures 0 !in d ==> 0 !in Example(d, afterStar)
  {
    if d != [] {
      HopelessStep(d);
      OrdinaryNextStep(d);
      var next := IsStar(d[0]) || (IsSoft(d[0]) && afterStar);
      ExampleMatches(d[1..], next);
    }
  }

  /** Exactly the hopeless patterns match no name at all. */
  lemma MatchesSomeNameExactlyWhen(d: Name)
    ensures (exists s: Name :: Matches(s, d)) <==> !Hopeless(d)
  {
    hide Matches, Hopeless;
    if Hopeless(d) {
      forall s: Name ensures !Matches(s, d) { HopelessMatchesNothing(s, d); }
    } else {
      ExampleMatches(d, false);
      var s: Name := Example(d, false);
      assert Matches(s, d);
    }
  }

  /** A 0xff byte may be dropped wherever it does not end the pattern right after a '*'. */
  lemma {:induction false} SkipMayGo(s: seq<byte>, a: seq<byte>, b: seq<byte>)
    requires b != [] || a == [] || a[|a| - 1] != STAR
    ensures Matches(s, a + [SKIP] + b) == Matches(s, a + b)
    decreases |a|
  {
    var with, without := a + [SKIP] + b, a + b;
    if a == [] {
      assert with[1..] == without;
    } else {
      assert with[1..] == a[1..] + [SKIP] + b && without[1..] == a[1..] + b;
      SkipMayGo(s, a[1..], b);
      SkipMayGo(ToDot(s), a[1..], b);
      if s != [] { SkipMayGo(s[1..], a[1..], b); }
      assert with[0] == without[0] == a[0];
      assert without == [STAR] ==> a == [STAR] && b == [];
      hide ToDot, Lower;
    }
  }

  /** "*" followed by a final 0xff matches only names without a dot. */
  lemma StarThenSkip(s: seq<byte>)
    ensures Matches(s, [STAR, SKIP]) <==> DOT !in s
  {
    assert [STAR, SKIP][1..] == [SKIP] && [SKIP][1..] == [];
    assert Matches(ToDot(s), [SKIP]) == Matches(ToDot(s), []);
    BaseAndRest(s);
    ToDotStarts(s);
  }

  function Dots(n: nat): seq<byte> {
    seq(n, _ => DOT)
  }

  lemma {:induction false} ToDotAppend(s: seq<byte>, n: nat)
    ensures ToDot(s + Dots(n)) == ToDot(s) + Dots(n)
  {
    if s == [] {
      assert s + Dots(n) == Dots(n);
    } else if s[0] != DOT {
      assert (s + Dots(n))[1..] == s[1..] + Dots(n);
      ToDotAppend(s[1..], n);
    }
  }

  /** With enough dots appended, a name that matches a pattern ending in '*' still does, and
      leaves a dot over for a final 0xff to stumble on. */
  lemma {:induction false} DotsTellApart(s: seq<byte>, c: seq<byte>, n: nat)
    requires Matches(s, c + [STAR]) && n > |c|
    ensures Matches(s + Dots(n), c + [STAR]) && !Matches(s + Dots(n), c + [STAR, SKIP])
    decreases |c|
  {
    var longer := s + Dots(n);
    if c == [] {
      assert c + [STAR] == [STAR] && c + [STAR, SKIP] == [STAR, SKIP];
      StarThenSkip(longer);
      assert longer[|s|] == DOT;
    } else {
      assert (c + [STAR])[1..] == c[1..] + [STAR] && (c + [STAR, SKIP])[1..] == c[1..] + [STAR, SKIP];
      assert (c + [STAR])[0] == c[0] == (c + [STAR, SKIP])[0];
      ToDotAppend(s, n);
      if s == [] {
        assert longer == Dots(n) && longer[1..] == [] + Dots(n - 1) && [] + Dots(n) == Dots(n);
        if c[0] == DOT || c[0] == DOT8 { DotsTellApart(s, c[1..], n - 1); } else { DotsTellApart(s, c[1..], n); }
      } else {
        assert longer[1..] == s[1..] + Dots(n) && longer[0] == s[0];
        var t := if IsStar(c[0]) then ToDot(s)
                 else if c[0] == SKIP || ((c[0] == QUERY || c[0] == QUERY8) && s[0] == DOT) then s else s[1..];
        DotsTellApart(t, c[1..], n);
      }
    }
  }

  lemma HopelessLonger(a: seq<byte>)
    requires Hopeless(a)
    ensures Hopeless(a + [SKIP])
  {
    var i :| 0 <= i < |a| && IsStar(a[i]) && OrdinaryNext(a[i + 1..]);
    var d := a[i + 1..];
    var j :| 0 <= j < |d| && IsOrdinary(d[j]) && forall k :: 0 <= k < j ==> IsSoft(d[k]);
    assert (a + [SKIP])[i + 1..] == d + [SKIP] && (d + [SKIP])[j] == d[j];
    assert OrdinaryNext((a + [SKIP])[i + 1..]) && IsStar((a + [SKIP])[i]);
  }

  /** Dropping a 0xff byte changes no match exactly when it does not end the pattern right after
      a '*', or the pattern before it matches nothing anyway. */
  lemma SkipMayGoExactlyWhen(a: Name, b: Name)
    ensures (forall s: Name :: Matches(s, a + [SKIP] + b) == Matches(s, a + b)) <==>
      b != [] || a == [] || a[|a| - 1] != STAR || Hopeless(a)
  {
    if b != [] || a == [] || a[|a| - 1] != STAR {
      forall s: Name ensures Matches(s, a + [SKIP] + b) == Matches(s, a + b) { SkipMayGo(s, a, b); }
    } else {
      assert a + [SKIP] + b == a + [SKIP] && a + b == a;
      if Hopeless(a) {
        HopelessLonger(a);
        forall s: Name ensures Matches(s, a + [SKIP] + b) == Matches(s, a + b) {
          HopelessMatchesNothing(s, a);
          HopelessMatchesNothing(s, a + [SKIP]);
        }
      } else {
        var c := a[..|a| - 1];
        assert a == c + [STAR] && a + [SKIP] == c + [STAR, SKIP];
        ExampleMatches(a, false);
        DotsTellApart(Example(a, false), c, |a|);
        var s: Name := Example(a, false) + Dots(|a|);
        assert Matches(s, a + b) && !Matches(s, a + [SKIP] + b);
      }
    }
  }

  // ----- the two pointers ----------------------------------------------------------------------

  /** The byte a pointer at position i of a C string reads. */
  function ByteAt(s: Name, i: nat): byte
    requires i <= |s|
  {
    if i < |s| then s[i] else 0
  }

  lemma LowerZero(b: byte)
    ensures Lower(b) == 0 <==> b == 0
  {
  }

  method SkipToDot(source: Name, from: nat) returns (s: nat)
    requires from <= |source|
    ensures from <= s <= |source| && source[s..] == ToDot(source[from..])
  {
    s := from;
    while ByteAt(source, s) != 0 && ByteAt(source, s) != DOT
      invariant from <= s <= |source| && ToDot(source[s..]) == ToDot(source[from..])
      decreases |source| - s
    {
      assert source[s..][1..] == source[s + 1..];
      s := s + 1;
    }
  }

  /** match_fn (source, dest); neither index passes a terminator. */
  method MatchFn(source: Name, dest: Name) returns (r: bool)
    ensures r == Matches(source, dest)
  {
    var s, d := 0, 0;
    while d < |dest|
      invariant 0 <= s <= |source| && 0 <= d <= |dest|
      invariant Matches(source[s..], dest[d..]) == Matches(source, dest)
      decreases |dest| - d
    {
      var b := dest[d];
      ghost var rest := dest[d..];
      assert rest[0] == b && rest[1..] == dest[d + 1..];
      hide Lower;
      if b == QUERY8 || b == QUERY {
        if ByteAt(source, s) != 0 && ByteAt(source, s) != DOT {
          assert source[s..][1..] == source[s + 1..];
          s := s + 1;
        }
        d := d + 1;
      } else if b == STAR8 || b == STAR {
        d := d + 1;
        if ByteAt(dest, d) != 0 {
          s := SkipToDot(source, s);
        } else {
          if dest[d - 1] == STAR {
            assert rest == [STAR];
            return true;
          }
          s := SkipToDot(source, s);
        }
      } else if b == DOT8 || b == DOT {
        if ByteAt(source, s) != 0 {
          if ByteAt(source, s) != DOT {
            return false;
          } else {
            assert source[s..][1..] == source[s + 1..];
            s := s + 1;
          }
        }
        d := d + 1;
      } else if b == SKIP {
        d := d + 1;
      } else {
        LowerZero(b);
        if Lower(ByteAt(source, s)) != Lower(b) {
          return false;
        }
        assert source[s..][1..] == source[s + 1..];
        s := s + 1;
        d := d + 1;
      }
    }
    return ByteAt(source, s) == 0;
  }
}
